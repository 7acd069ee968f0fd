/**
 * lib/application-inventory.js:11-12, 61-120: which component of an application answers for each
 * Composer package installed inside it.
 *
 * Occurrences arrive with their manifest path already relative to the scan root; `lower` is
 * case folding.
 */
module Applications {
  import opened Basics
  import opened RequireWalk

  datatype Application = Application(id: string, root: string)

  /** `coord` and `path` are empty when absent. */
  datatype Component = Component(id: string, applicationId: string, kind: string, coord: string, path: string)

  datatype Bond = Direct | Indirect | Unknown

  datatype Proof = PhysicalContainment | ComposerRequire | RootManifest | UnresolvedOrigin

  datatype Relation = Relation(app: string, owner: string, depKey: string, version: string, manifest: string,
                               bond: Bond, confirmed: bool, proof: Proof, path: seq<string>)

  const TARGET_KINDS := {"core", "framework", "framework-component", "bundle", "module", "component", "theme",
                         "profile", "plugin", "mu-plugin", "drop-in"}

  // ---- Paths ----

  function Posix(p: string): string {
    if |p| >= 2 && p[..2] == "./" then p[2..] else p
  }

  predicate Within(child: string, parent: string) {
    parent == "." || child == parent || (|child| > |parent| && child[..|parent|] == parent && child[|parent|] == '/')
  }

  function Dirname(p: string): string {
    if p == "" then "." else if p[|p| - 1] == '/' then (if |p| == 1 then "/" else p[..|p| - 1]) else Dirname(p[..|p| - 1])
  }

  function Root(app: Application): string {
    Posix(if app.root == "" then "." else app.root)
  }

  // ---- Who could answer ----

  function ItemsOf(app: Application, occurrences: seq<Item>): seq<Item> {
    Filter((item: Item) => Within(item.relManifest, Root(app)), occurrences)
  }

  function OwnersOf(app: Application, components: seq<Component>): seq<Component> {
    Filter((c: Component) => c.applicationId == app.id, components)
  }

  function OfManifest(items: seq<Item>, manifest: string): seq<Item> {
    Filter((item: Item) => item.manifest == manifest, items)
  }

  predicate Contains(c: Component, item: Item) {
    c.kind in TARGET_KINDS && c.kind != "core" && c.path != "" && Within(item.relManifest, Posix(c.path))
  }

  /** A component whose directory holds the manifest, none of the others' being deeper. */
  predicate IsDeepest(owners: seq<Component>, item: Item, c: Component) {
    c in owners && Contains(c, item) && forall other | other in owners && Contains(other, item) :: |Posix(other.path)| <= |Posix(c.path)|
  }

  /** The first core or framework. */
  function Primary(owners: seq<Component>): (c: Option<Component>)
    ensures c.Some? ==> c.value in owners && c.value.kind in {"core", "framework"}
    ensures c.None? ==> forall o | o in owners :: o.kind !in {"core", "framework"}
  {
    if owners == [] then None else if owners[0].kind in {"core", "framework"} then Some(owners[0]) else Primary(owners[1..])
  }

  function NameOf(c: Component): string {
    if c.coord != "" then c.coord else c.id
  }

  function Relate(lower: string -> string, app: Application, owner: Option<Component>, item: Item, proof: Proof, path: seq<string>): Relation {
    match owner
    case None => Relation(app.id, "", item.depKey, item.version, item.manifest, Unknown, false, proof, path)
    case Some(c) =>
      var self := c.coord != "" && lower(c.coord) == item.coord && c.kind in TARGET_KINDS;
      Relation(app.id, c.id, item.depKey, item.version, item.manifest, if self then Direct else Indirect, true, proof, path)
  }

  // ---- Keys ----

  type Key = (string, string, string, string, string)
  type OccurrenceKey = (string, string, string, string)

  function KeyOf(r: Relation): Key {
    (r.app, r.owner, r.depKey, r.version, r.manifest)
  }

  function OccurrenceOf(r: Relation): OccurrenceKey {
    (r.app, r.depKey, r.version, r.manifest)
  }

  function OccurrenceIn(app: Application, item: Item): OccurrenceKey {
    (app.id, item.depKey, item.version, item.manifest)
  }

  predicate HasKey(rs: seq<Relation>, k: Key) {
    exists i :: 0 <= i < |rs| && KeyOf(rs[i]) == k
  }

  predicate Covered(rs: seq<Relation>, o: OccurrenceKey) {
    exists i :: 0 <= i < |rs| && OccurrenceOf(rs[i]) == o
  }

  predicate Claimed(rs: seq<Relation>, o: OccurrenceKey) {
    exists i :: 0 <= i < |rs| && OccurrenceOf(rs[i]) == o && rs[i].confirmed
  }

  /** No other relation is about the same occurrence. */
  predicate Lone(rs: seq<Relation>, i: nat)
    requires i < |rs|
  {
    forall j | 0 <= j < |rs| && j != i :: OccurrenceOf(rs[j]) != OccurrenceOf(rs[i])
  }

  predicate Extends(rs: seq<Relation>, more: seq<Relation>) {
    |rs| <= |more| && more[..|rs|] == rs
  }

  // ---- What a relation rests on ----

  /** The reason a relation gives holds. */
  ghost predicate Grounded(lower: string -> string, app: Application, owners: seq<Component>, items: seq<Item>, item: Item,
                           owner: Option<Component>, proof: Proof, path: seq<string>)
  {
    match proof
    case PhysicalContainment => owner.Some? && IsDeepest(owners, item, owner.value) && path == [NameOf(owner.value), item.coord]
    case ComposerRequire =>
      var g := ByCoord(OfManifest(items, item.manifest));
      && owner.Some? && owner.value in owners && owner.value.kind in TARGET_KINDS && owner.value.coord != ""
      && item.coord in g && g[item.coord] == item
      && IsShortest(lower, g, lower(owner.value.coord), path) && |path| <= MAX_LINKS && Last(path) == item.coord
    case RootManifest =>
      owner.Some? && owner == Primary(owners) && Dirname(item.relManifest) == Root(app) && path == [NameOf(owner.value), item.coord]
    case UnresolvedOrigin => owner.None? && path == []
  }

  ghost predicate Justified(lower: string -> string, app: Application, owners: seq<Component>, items: seq<Item>, r: Relation) {
    exists item, owner :: item in items && r == Relate(lower, app, owner, item, r.proof, r.path)
                          && Grounded(lower, app, owners, items, item, owner, r.proof, r.path)
  }

  ghost predicate AllJustified(lower: string -> string, app: Application, owners: seq<Component>, items: seq<Item>, rs: seq<Relation>, start: nat) {
    forall i | start <= i < |rs| :: Justified(lower, app, owners, items, rs[i])
  }

  class Ledger {
    const lower: string -> string
    var relations: seq<Relation>
    var seen: set<Key>
    var claimed: set<OccurrenceKey>

    ghost predicate Valid()
      reads this
    {
      && (forall k :: k in seen <==> HasKey(relations, k))
      && (forall o :: o in claimed <==> Claimed(relations, o))
      && (forall i, j | 0 <= i < j < |relations| :: KeyOf(relations[i]) != KeyOf(relations[j]))
      && OwnedConfirmed(relations)
    }

    constructor (lower: string -> string)
      ensures Valid() && relations == [] && this.lower == lower
    {
      this.lower, relations, seen, claimed := lower, [], {}, {};
    }

    method Add(app: Application, owner: Option<Component>, item: Item, proof: Proof, path: seq<string>)
      requires Valid()
      modifies this
      ensures Valid()
      ensures var r := Relate(lower, app, owner, item, proof, path);
              relations == if HasKey(old(relations), KeyOf(r)) then old(relations) else old(relations) + [r]
    {
      var r := Relate(lower, app, owner, item, proof, path);
      if KeyOf(r) in seen { return; }
      Appended(relations, r);
      seen := seen + {KeyOf(r)};
      if owner.Some? { claimed := claimed + {OccurrenceOf(r)}; }
      relations := relations + [r];
    }

    /** A relation with its grounds, added unless one with its key is there. */
    method Attribute(app: Application, ghost owners: seq<Component>, ghost items: seq<Item>,
                     owner: Component, item: Item, proof: Proof, path: seq<string>)
      requires Valid() && item in items && Grounded(lower, app, owners, items, item, Some(owner), proof, path)
      requires proof in {PhysicalContainment, ComposerRequire}
      modifies this
      ensures Valid() && Attributes(lower, app, owners, items, old(relations), relations)
      ensures HasKey(relations, KeyFor(app, owner, item))
    {
      hide Grounded;
      ghost var r := Relate(lower, app, Some(owner), item, proof, path);
      Appended(relations, r);
      assert Justified(lower, app, owners, items, r);
      Add(app, Some(owner), item, proof, path);
    }

    /** The deepest components whose directory holds the manifest. */
    method ContainItem(app: Application, owners: seq<Component>, ghost items: seq<Item>, item: Item)
      requires Valid() && item in items
      modifies this
      ensures Valid() && Attributes(lower, app, owners, items, old(relations), relations)
      ensures forall c | IsDeepest(owners, item, c) :: HasKey(relations, KeyFor(app, c, item))
    {
      var chosen := Deepest(owners, item);
      hide *;
      NothingAttributed(lower, app, owners, items, relations);
      for i := 0 to |chosen|
        invariant Valid() && Attributes(lower, app, owners, items, old(relations), relations)
        invariant forall k | 0 <= k < i :: HasKey(relations, KeyFor(app, chosen[k], item))
      {
        assert chosen[i] in chosen;
        ghost var before := relations;
        DeepestIsGrounded(lower, app, owners, items, item, chosen[i]);
        Attribute(app, owners, items, chosen[i], item, PhysicalContainment, [NameOf(chosen[i]), item.coord]);
        AttributesTransitive(lower, app, owners, items, old(relations), before, relations);
      }
    }

    /** Physical containment, occurrence by occurrence. */
    method ContainAll(app: Application, owners: seq<Component>, items: seq<Item>)
      requires Valid()
      modifies this
      ensures Valid() && Attributes(lower, app, owners, items, old(relations), relations)
      ensures forall item, c | item in items && IsDeepest(owners, item, c) :: HasKey(relations, KeyFor(app, c, item))
    {
      hide *;
      NothingAttributed(lower, app, owners, items, relations);
      for i := 0 to |items|
        invariant Valid() && Attributes(lower, app, owners, items, old(relations), relations)
        invariant forall k, c | 0 <= k < i && IsDeepest(owners, items[k], c) :: HasKey(relations, KeyFor(app, c, items[k]))
      {
        ghost var before := relations;
        ContainItem(app, owners, items, items[i]);
        AttributesTransitive(lower, app, owners, items, old(relations), before, relations);
      }
    }

    /** What one owner's walk through one manifest reaches; nothing if it is not installed there. */
    method OwnersWalk(owner: Component, g: Graph) returns (visits: seq<Visit>)
      requires forall c | c in g :: g[c].coord == c
      ensures visits != [] ==> owner.kind in TARGET_KINDS && owner.coord != "" && IsWalk(lower, g, lower(owner.coord), visits)
      ensures forall c | IsWalked(lower, g, owner, c) :: exists i :: 0 <= i < |visits| && visits[i].item == g[c]
    {
      hide IsWalk, Near, IsClose;
      if owner.kind !in TARGET_KINDS { return []; }
      var start := lower(owner.coord);
      if owner.coord == "" || start !in g {
        if start !in g { CloseNeedsStart(lower, g, start); }
        return [];
      }
      visits := Walk(lower, g, start);
      WalkedIsVisited(lower, g, owner, visits);
    }

    method WalkOwner(app: Application, owners: seq<Component>, ghost items: seq<Item>, owner: Component, manifest: string, g: Graph)
      requires Valid() && owner in owners && g == ByCoord(OfManifest(items, manifest))
      modifies this
      ensures Valid() && Attributes(lower, app, owners, items, old(relations), relations)
      ensures Reported(lower, app, relations, owner, g)
    {
      hide *;
      NothingAttributed(lower, app, owners, items, relations);
      var visits := OwnersWalk(owner, g);
      for i := 0 to |visits|
        invariant Valid() && Attributes(lower, app, owners, items, old(relations), relations)
        invariant forall k | 0 <= k < i :: HasKey(relations, KeyFor(app, owner, visits[k].item))
      {
        ghost var before := relations;
        VisitIsGrounded(lower, app, owners, items, owner, manifest, visits, i);
        Attribute(app, owners, items, owner, visits[i].item, ComposerRequire, visits[i].chain);
        AttributesTransitive(lower, app, owners, items, old(relations), before, relations);
      }
      VisitsReported(lower, app, relations, owner, g, visits);
    }

    /** Every owner's walk through every manifest of the application. */
    method WalkAll(app: Application, owners: seq<Component>, items: seq<Item>)
      requires Valid()
      modifies this
      ensures Valid() && Attributes(lower, app, owners, items, old(relations), relations)
      ensures forall item, owner | item in items && owner in owners ::
                Reported(lower, app, relations, owner, ByCoord(OfManifest(items, item.manifest)))
    {
      hide *;
      NothingAttributed(lower, app, owners, items, relations);
      var manifests := Manifests(items);
      for i := 0 to |manifests|
        invariant Valid() && Attributes(lower, app, owners, items, old(relations), relations)
        invariant forall k | 0 <= k < i :: AllReported(lower, app, relations, owners, items, manifests[k])
      {
        ghost var before := relations;
        WalkManifest(app, owners, items, manifests[i]);
        AttributesTransitive(lower, app, owners, items, old(relations), before, relations);
        AllStillReported(lower, app, before, relations, owners, items);
      }
      EveryManifest(lower, app, relations, owners, items, manifests);
    }

    method WalkManifest(app: Application, owners: seq<Component>, items: seq<Item>, manifest: string)
      requires Valid()
      modifies this
      ensures Valid() && Attributes(lower, app, owners, items, old(relations), relations)
      ensures AllReported(lower, app, relations, owners, items, manifest)
    {
      var g := ByCoord(OfManifest(items, manifest));
      hide *;
      NothingAttributed(lower, app, owners, items, relations);
      for i := 0 to |owners|
        invariant Valid() && Attributes(lower, app, owners, items, old(relations), relations)
        invariant forall k | 0 <= k < i :: Reported(lower, app, relations, owners[k], g)
      {
        ghost var before := relations;
        WalkOwner(app, owners, items, owners[i], manifest, g);
        AttributesTransitive(lower, app, owners, items, old(relations), before, relations);
        StillReported(lower, app, before, relations);
      }
      EveryOwner(lower, app, relations, owners, items, manifest);
    }

    lemma ClaimedInSync()
      requires Valid()
      ensures forall o :: o in claimed <==> Claimed(relations, o)
      ensures forall o :: Claimed(relations, o) ==> Covered(relations, o)
      ensures OwnedConfirmed(relations)
    {
    }

    /** The packages of the root manifest that nothing else claimed go to the primary component. */
    method ClaimRoot(app: Application, owners: seq<Component>, items: seq<Item>)
      requires Valid()
      modifies this
      ensures Valid() && Fills(lower, app, owners, items, old(relations), relations)
      ensures ConfirmedSince(relations, |old(relations)|)
      ensures AllConfirmed(old(relations), app.id) ==> AllConfirmed(relations, app.id)
      ensures AllConfirmed(old(relations), app.id) || Named(owners) ==> RootClaimed(app, owners, items, relations)
    {
      hide *;
      NothingFilled(lower, app, owners, items, relations);
      NothingSince(app, owners, items, relations);
      var primary := Primary(owners);
      if primary.None? { return; }
      for i := 0 to |items|
        invariant Valid() && Fills(lower, app, owners, items, old(relations), relations)
        invariant ConfirmedSince(relations, |old(relations)|)
        invariant AllConfirmed(old(relations), app.id) ==> AllConfirmed(relations, app.id)
        invariant AllConfirmed(old(relations), app.id) || Named(owners) ==>
                    forall k | 0 <= k < i && Dirname(items[k].relManifest) == Root(app) :: Claimed(relations, OccurrenceIn(app, items[k]))
      {
        ClaimedInSync();
        if Dirname(items[i].relManifest) != Root(app) || OccurrenceIn(app, items[i]) in claimed { continue; }
        RootFilled(lower, app, owners, items, old(relations), relations, items[i]);
        Add(app, primary, items[i], RootManifest, [NameOf(primary.value), items[i].coord]);
      }
      AllRootClaimed(app, owners, items, relations);
    }

    /** What is still unclaimed is recorded as of unknown origin. */
    method MarkUnknown(app: Application, ghost owners: seq<Component>, items: seq<Item>)
      requires Valid()
      modifies this
      ensures Valid() && Fills(lower, app, owners, items, old(relations), relations)
      ensures UnknownSince(app, old(relations), relations)
      ensures forall item | item in items :: Covered(relations, OccurrenceIn(app, item))
    {
      NothingFilled(lower, app, owners, items, relations);
      hide *;
      for i := 0 to |items|
        invariant Valid() && Fills(lower, app, owners, items, old(relations), relations)
        invariant UnknownSince(app, old(relations), relations)
        invariant forall k | 0 <= k < i :: Covered(relations, OccurrenceIn(app, items[k]))
      {
        ClaimedInSync();
        if OccurrenceIn(app, items[i]) in claimed { continue; }
        UnknownFilled(lower, app, owners, items, old(relations), relations, items[i]);
        Add(app, None, items[i], UnresolvedOrigin, []);
      }
    }

    /** One application: containment, require walks, its root manifest, and what is left. */
    method AttributeApp(app: Application, components: seq<Component>, occurrences: seq<Item>) returns (ghost confirmed: seq<Relation>)
      requires Valid()
      modifies this
      ensures Valid() && Step(lower, app, components, occurrences, old(relations), Stage(confirmed, relations))
    {
      var owners, items := OwnersOf(app, components), ItemsOf(app, occurrences);
      hide *;
      ContainAll(app, owners, items);
      ghost var r1 := relations;
      WalkAll(app, owners, items);
      ghost var r2 := relations;
      ClaimedInSync();
      ClaimRoot(app, owners, items);
      confirmed := relations;
      MarkUnknown(app, owners, items);
      AttributesTransitive(lower, app, owners, items, old(relations), r1, r2);
      OriginsAreClaimed(lower, app, owners, items, old(relations), r2);
      AppAttributed(lower, app, owners, items, old(relations), r2, confirmed, relations);
      StillReported(lower, app, r2, relations);
      AccountedIntro(lower, app, owners, items, relations);
      StepIntro(lower, app, components, occurrences, old(relations), r2, confirmed, relations);
    }

    /** The whole inventory, application by application. */
    method Build(applications: seq<Application>, components: seq<Component>, occurrences: seq<Item>) returns (ghost run: seq<Stage>)
      requires Valid() && relations == []
      modifies this
      ensures Valid() && Ran(lower, applications, components, occurrences, run) && relations == After(run, |run|)
      ensures Built(lower, applications, components, occurrences, relations)
    {
      hide *;
      NothingBuilt(lower, applications, components, occurrences);
      assert applications[..0] == [] && relations == [];
      run := [];
      for n := 0 to |applications|
        invariant Valid()
        invariant |run| == n && Ran(lower, applications[..n], components, occurrences, run) && relations == After(run, n)
        invariant Built(lower, applications[..n], components, occurrences, relations)
      {
        ghost var before := relations;
        ghost var confirmed := AttributeApp(applications[n], components, occurrences);
        BuiltMore(lower, applications, n, components, occurrences, before, Stage(confirmed, relations));
        RanMore(lower, applications, n, components, occurrences, run, Stage(confirmed, relations));
        run := run + [Stage(confirmed, relations)];
      }
      assert applications[..|applications|] == applications;
    }
  }

  function Deepest(owners: seq<Component>, item: Item): (chosen: seq<Component>)
    ensures forall c :: c in chosen <==> IsDeepest(owners, item, c)
  {
    var candidates := Filter((c: Component) => Contains(c, item), owners);
    if candidates == [] then []
    else
      var deepest := MaxDepth(candidates);
      Filter((c: Component) => |Posix(c.path)| == deepest, candidates)
  }

  lemma DeepestIsGrounded(lower: string -> string, app: Application, owners: seq<Component>, items: seq<Item>, item: Item, c: Component)
    requires IsDeepest(owners, item, c)
    ensures Grounded(lower, app, owners, items, item, Some(c), PhysicalContainment, [NameOf(c), item.coord])
  {
  }

  /** The owner's package requires `c`, directly or not, near enough to be walked to; it requires itself. */
  ghost predicate IsWalked(lower: string -> string, g: Graph, owner: Component, c: string) {
    c in g && owner.kind in TARGET_KINDS && owner.coord != "" && IsClose(lower, g, lower(owner.coord), c)
  }

  lemma CloseNeedsStart(lower: string -> string, g: Graph, start: string)
    requires start !in g
    ensures forall c :: !IsClose(lower, g, start, c)
  {
  }

  /** Everything the owner's package requires near enough is related to the owner. */
  ghost predicate Reported(lower: string -> string, app: Application, rs: seq<Relation>, owner: Component, g: Graph) {
    forall c | IsWalked(lower, g, owner, c) :: HasKey(rs, KeyFor(app, owner, g[c]))
  }

  /** Every owner's walk through the manifest is reported. */
  ghost predicate AllReported(lower: string -> string, app: Application, rs: seq<Relation>, owners: seq<Component>, items: seq<Item>, manifest: string) {
    forall owner | owner in owners :: Reported(lower, app, rs, owner, ByCoord(OfManifest(items, manifest)))
  }

  lemma AllStillReported(lower: string -> string, app: Application, rs: seq<Relation>, more: seq<Relation>, owners: seq<Component>, items: seq<Item>)
    requires forall k :: HasKey(rs, k) ==> HasKey(more, k)
    ensures forall m :: AllReported(lower, app, rs, owners, items, m) ==> AllReported(lower, app, more, owners, items, m)
  {
    StillReported(lower, app, rs, more);
    hide Reported;
  }

  lemma EveryOwner(lower: string -> string, app: Application, rs: seq<Relation>, owners: seq<Component>, items: seq<Item>, manifest: string)
    requires forall k | 0 <= k < |owners| :: Reported(lower, app, rs, owners[k], ByCoord(OfManifest(items, manifest)))
    ensures AllReported(lower, app, rs, owners, items, manifest)
  {
    hide Reported;
  }

  lemma EveryManifest(lower: string -> string, app: Application, rs: seq<Relation>, owners: seq<Component>, items: seq<Item>, manifests: seq<string>)
    requires forall item | item in items :: item.manifest in manifests
    requires forall k | 0 <= k < |manifests| :: AllReported(lower, app, rs, owners, items, manifests[k])
    ensures forall item, owner | item in items && owner in owners :: Reported(lower, app, rs, owner, ByCoord(OfManifest(items, item.manifest)))
  {
    hide Reported, OfManifest;
    forall item | item in items ensures AllReported(lower, app, rs, owners, items, item.manifest) {
      var k :| 0 <= k < |manifests| && manifests[k] == item.manifest;
    }
  }

  lemma VisitsReported(lower: string -> string, app: Application, rs: seq<Relation>, owner: Component, g: Graph, visits: seq<Visit>)
    requires forall c | IsWalked(lower, g, owner, c) :: exists i :: 0 <= i < |visits| && visits[i].item == g[c]
    requires forall k | 0 <= k < |visits| :: HasKey(rs, KeyFor(app, owner, visits[k].item))
    ensures Reported(lower, app, rs, owner, g)
  {
    hide IsWalked;
  }

  lemma StillReported(lower: string -> string, app: Application, rs: seq<Relation>, more: seq<Relation>)
    requires forall k :: HasKey(rs, k) ==> HasKey(more, k)
    ensures forall owner, g :: Reported(lower, app, rs, owner, g) ==> Reported(lower, app, more, owner, g)
  {
    hide IsWalked;
  }

  function Manifests(items: seq<Item>): (ms: seq<string>)
    ensures Distinct(ms) && forall item | item in items :: item.manifest in ms
  {
    if items == [] then []
    else
      var rest, m := Manifests(items[..|items| - 1]), items[|items| - 1].manifest;
      if m in rest then rest else (DistinctConcat(rest, [m]); rest + [m])
  }

  lemma WalkedIsVisited(lower: string -> string, g: Graph, owner: Component, visits: seq<Visit>)
    requires lower(owner.coord) in g && WalkedAll(lower, g, lower(owner.coord), visits)
    ensures forall c | IsWalked(lower, g, owner, c) :: exists i :: 0 <= i < |visits| && visits[i].item == g[c]
  {
    hide IsShortest, Near, IsClose;
    forall c | IsWalked(lower, g, owner, c) ensures exists i :: 0 <= i < |visits| && visits[i].item == g[c] {
      var i :| 0 <= i < |visits| && visits[i].item.coord == c;
      assert IsEntry(lower, g, lower(owner.coord), visits[i]);
    }
  }

  lemma VisitIsGrounded(lower: string -> string, app: Application, owners: seq<Component>, items: seq<Item>, owner: Component,
                        manifest: string, visits: seq<Visit>, i: nat)
    requires owner in owners && owner.kind in TARGET_KINDS && owner.coord != "" && i < |visits|
    requires IsWalk(lower, ByCoord(OfManifest(items, manifest)), lower(owner.coord), visits)
    ensures visits[i].item in items
    ensures Grounded(lower, app, owners, items, visits[i].item, Some(owner), ComposerRequire, visits[i].chain)
  {
    var g, v := ByCoord(OfManifest(items, manifest)), visits[i];
    assert IsEntry(lower, g, lower(owner.coord), v) && IsShortest(lower, g, lower(owner.coord), v.chain);
    hide IsShortest, IsChain;
    assert v.item in OfManifest(items, manifest);
  }

  /** Relations of one application were added, each with its grounds; nothing recorded is lost or moved. */
  ghost predicate Attributes(lower: string -> string, app: Application, owners: seq<Component>, items: seq<Item>,
                             rs: seq<Relation>, more: seq<Relation>)
  {
    && Extends(rs, more) && AllJustified(lower, app, owners, items, more, |rs|)
    && (forall k :: HasKey(rs, k) ==> HasKey(more, k))
    && (AllConfirmed(rs, app.id) ==> AllConfirmed(more, app.id))
    && (forall i | |rs| <= i < |more| :: more[i].proof in {PhysicalContainment, ComposerRequire})
  }

  /** Relations were added; if all before were confirmed, only for occurrences that had none, and one each. */
  ghost predicate Fills(lower: string -> string, app: Application, owners: seq<Component>, items: seq<Item>,
                        rs: seq<Relation>, more: seq<Relation>)
  {
    && Extends(rs, more) && AllJustified(lower, app, owners, items, more, |rs|)
    && (forall k :: HasKey(rs, k) ==> HasKey(more, k))
    && (AllConfirmed(rs, app.id) ==> forall i | |rs| <= i < |more| :: Lone(more, i))
    && LeftOver(more, |rs|)
  }

  /** A relation is for an occurrence that no confirmed one before it is about. */
  predicate LeftOver(rs: seq<Relation>, start: nat) {
    forall i | start <= i < |rs| :: !Claimed(rs[..i], OccurrenceOf(rs[i]))
  }

  /** What was added since is of unknown origin, and for occurrences that nothing claimed before. */
  predicate UnknownSince(app: Application, rs: seq<Relation>, more: seq<Relation>) {
    forall i | |rs| <= i < |more| ::
      more[i].app == app.id && more[i].owner == "" && !more[i].confirmed && !Claimed(rs, OccurrenceOf(more[i]))
  }

  predicate ConfirmedSince(rs: seq<Relation>, start: nat) {
    forall i | start <= i < |rs| :: rs[i].confirmed
  }

  predicate Named(owners: seq<Component>) {
    forall c | c in owners :: c.id != ""
  }

  predicate OwnedConfirmed(rs: seq<Relation>) {
    forall i | 0 <= i < |rs| && rs[i].owner != "" :: rs[i].confirmed
  }

  /** A relation that names one of the owners is a confirmed one. */
  predicate Trusted(rs: seq<Relation>, app: Application, owners: seq<Component>) {
    AllConfirmed(rs, app.id) || (Named(owners) && OwnedConfirmed(rs))
  }

  predicate RootClaimed(app: Application, owners: seq<Component>, items: seq<Item>, rs: seq<Relation>) {
    Primary(owners).Some? ==>
      forall item | item in items && Dirname(item.relManifest) == Root(app) :: Claimed(rs, OccurrenceIn(app, item))
  }

  /** What the owner's walk through the manifest reaches is claimed. */
  ghost predicate WalkClaimed(lower: string -> string, app: Application, rs: seq<Relation>, owner: Component, g: Graph) {
    forall c | IsWalked(lower, g, owner, c) :: Claimed(rs, OccurrenceIn(app, g[c]))
  }

  /** What some deepest container holds, or some walk reaches, is claimed. */
  ghost predicate OriginsClaimed(lower: string -> string, app: Application, owners: seq<Component>, items: seq<Item>, rs: seq<Relation>) {
    && (forall item, c | item in items && IsDeepest(owners, item, c) :: Claimed(rs, OccurrenceIn(app, item)))
    && (forall item, c | item in items && c in owners :: WalkClaimed(lower, app, rs, c, ByCoord(OfManifest(items, item.manifest))))
  }

  ghost predicate AllClaimed(lower: string -> string, app: Application, owners: seq<Component>, items: seq<Item>, rs: seq<Relation>) {
    OriginsClaimed(lower, app, owners, items, rs) && RootClaimed(app, owners, items, rs)
  }

  lemma KeyClaims(rs: seq<Relation>, app: Application, owners: seq<Component>, c: Component, item: Item)
    requires Trusted(rs, app, owners) && c in owners && HasKey(rs, KeyFor(app, c, item))
    ensures Claimed(rs, OccurrenceIn(app, item))
  {
    var i :| 0 <= i < |rs| && KeyOf(rs[i]) == KeyFor(app, c, item);
    assert OccurrenceOf(rs[i]) == OccurrenceIn(app, item) && rs[i].confirmed;
  }

  lemma OriginsAreClaimed(lower: string -> string, app: Application, owners: seq<Component>, items: seq<Item>,
                          r0: seq<Relation>, r2: seq<Relation>)
    requires Attributes(lower, app, owners, items, r0, r2) && OwnedConfirmed(r2)
    requires forall item, c | item in items && IsDeepest(owners, item, c) :: HasKey(r2, KeyFor(app, c, item))
    requires forall item, c | item in items && c in owners :: Reported(lower, app, r2, c, ByCoord(OfManifest(items, item.manifest)))
    ensures NoneOf(app.id, r0) || Named(owners) ==> OriginsClaimed(lower, app, owners, items, r2)
    ensures NoneOf(app.id, r0) ==> AllConfirmed(r2, app.id)
  {
    if NoneOf(app.id, r0) || Named(owners) {
      assert Trusted(r2, app, owners);
      hide HasKey, IsWalked, Claimed, Attributes, KeyFor, OccurrenceIn, AllConfirmed, Trusted;
      forall item, c | c in owners && HasKey(r2, KeyFor(app, c, item)) ensures Claimed(r2, OccurrenceIn(app, item)) {
        KeyClaims(r2, app, owners, c, item);
      }
    }
  }

  lemma NothingSince(app: Application, owners: seq<Component>, items: seq<Item>, rs: seq<Relation>)
    ensures ConfirmedSince(rs, |rs|) && (Primary(owners).None? ==> RootClaimed(app, owners, items, rs))
  {
  }

  lemma AllRootClaimed(app: Application, owners: seq<Component>, items: seq<Item>, rs: seq<Relation>)
    ensures (forall k | 0 <= k < |items| && Dirname(items[k].relManifest) == Root(app) :: Claimed(rs, OccurrenceIn(app, items[k]))) ==>
              RootClaimed(app, owners, items, rs)
  {
    hide Claimed, Dirname, OccurrenceIn, Primary;
  }

  lemma NothingFilled(lower: string -> string, app: Application, owners: seq<Component>, items: seq<Item>, rs: seq<Relation>)
    ensures Fills(lower, app, owners, items, rs, rs) && UnknownSince(app, rs, rs)
  {
  }

  /** One more relation, for an occurrence that has none. */
  lemma FillOne(lower: string -> string, app: Application, owners: seq<Component>, items: seq<Item>,
                rs: seq<Relation>, mid: seq<Relation>, r: Relation)
    requires Fills(lower, app, owners, items, rs, mid) && Justified(lower, app, owners, items, r)
    requires AllConfirmed(rs, app.id) ==> !Covered(mid, OccurrenceOf(r))
    requires !Claimed(mid, OccurrenceOf(r))
    ensures Fills(lower, app, owners, items, rs, mid + [r])
    ensures forall o :: Covered(mid + [r], o) <==> Covered(mid, o) || o == OccurrenceOf(r)
    ensures forall o :: Claimed(mid + [r], o) <==> Claimed(mid, o) || (o == OccurrenceOf(r) && r.confirmed)
  {
    Appended(mid, r);
    hide Justified, HasKey, Covered, Claimed;
    var more := mid + [r];
    assert more[..|rs|] == mid[..|rs|];
    assert forall i | 0 <= i < |mid| :: more[i] == mid[i];
    assert AllJustified(lower, app, owners, items, more, |rs|);
    forall i | |rs| <= i < |more| ensures !Claimed(more[..i], OccurrenceOf(more[i])) {
      assert more[..i] == mid[..i];
      assert mid[..|mid|] == mid;
    }
    if AllConfirmed(rs, app.id) {
      forall i, j | |rs| <= i < |more| && 0 <= j < |more| && j != i
        ensures OccurrenceOf(more[j]) != OccurrenceOf(more[i])
      {
        if i < |mid| && j < |mid| { assert Lone(mid, i); }
        NotAmong(mid, OccurrenceOf(r));
      }
    }
  }

  lemma NotAmong(rs: seq<Relation>, o: OccurrenceKey)
    requires !Covered(rs, o)
    ensures forall i | 0 <= i < |rs| :: OccurrenceOf(rs[i]) != o
  {
  }

  lemma RootFilled(lower: string -> string, app: Application, owners: seq<Component>, items: seq<Item>,
                   rs: seq<Relation>, mid: seq<Relation>, item: Item)
    requires Fills(lower, app, owners, items, rs, mid) && item in items && !Claimed(mid, OccurrenceIn(app, item))
    requires Primary(owners).Some? && Dirname(item.relManifest) == Root(app)
    requires (AllConfirmed(rs, app.id) ==> AllConfirmed(mid, app.id)) && OwnedConfirmed(mid) && ConfirmedSince(mid, |rs|)
    ensures var r := Relate(lower, app, Primary(owners), item, RootManifest, [NameOf(Primary(owners).value), item.coord]);
            var more := if HasKey(mid, KeyOf(r)) then mid else mid + [r];
            && ConfirmedSince(more, |rs|) && Fills(lower, app, owners, items, rs, more)
            && (forall o :: Claimed(mid, o) ==> Claimed(more, o))
            && (AllConfirmed(rs, app.id) ==> AllConfirmed(more, app.id))
            && (AllConfirmed(rs, app.id) || Named(owners) ==> Claimed(more, OccurrenceIn(app, item)))
  {
    var r := Relate(lower, app, Primary(owners), item, RootManifest, [NameOf(Primary(owners).value), item.coord]);
    assert Grounded(lower, app, owners, items, item, Primary(owners), RootManifest, r.path);
    assert Justified(lower, app, owners, items, r);
    assert KeyOf(r) == KeyFor(app, Primary(owners).value, item) && OccurrenceOf(r) == OccurrenceIn(app, item);
    hide Fills, Justified, Grounded;
    if AllConfirmed(rs, app.id) { ConfirmedIsClaimed(mid, app.id); }
    if HasKey(mid, KeyOf(r)) {
      if AllConfirmed(rs, app.id) || Named(owners) { KeyClaims(mid, app, owners, Primary(owners).value, item); }
    } else {
      FillOne(lower, app, owners, items, rs, mid, r);
    }
  }

  lemma ConfirmedIsClaimed(rs: seq<Relation>, appId: string)
    requires AllConfirmed(rs, appId)
    ensures forall o: OccurrenceKey | o.0 == appId :: Covered(rs, o) ==> Claimed(rs, o)
  {
  }

  lemma KeyIsCovered(rs: seq<Relation>, k: Key)
    requires HasKey(rs, k)
    ensures Covered(rs, (k.0, k.2, k.3, k.4))
  {
    var i :| 0 <= i < |rs| && KeyOf(rs[i]) == k;
    assert OccurrenceOf(rs[i]) == (k.0, k.2, k.3, k.4);
  }

  lemma UnknownFilled(lower: string -> string, app: Application, owners: seq<Component>, items: seq<Item>,
                      rs: seq<Relation>, mid: seq<Relation>, item: Item)
    requires Fills(lower, app, owners, items, rs, mid) && item in items && !Claimed(mid, OccurrenceIn(app, item))
    requires UnknownSince(app, rs, mid)
    ensures var r := Relate(lower, app, None, item, UnresolvedOrigin, []);
            var more := if HasKey(mid, KeyOf(r)) then mid else mid + [r];
            && Fills(lower, app, owners, items, rs, more) && UnknownSince(app, rs, more)
            && (forall o :: Covered(mid, o) ==> Covered(more, o)) && Covered(more, OccurrenceIn(app, item))
  {
    var r := Relate(lower, app, None, item, UnresolvedOrigin, []);
    assert Grounded(lower, app, owners, items, item, None, UnresolvedOrigin, r.path);
    assert Justified(lower, app, owners, items, r) && Extends(rs, mid);
    assert OccurrenceOf(r) == OccurrenceIn(app, item) && KeyOf(r) == (app.id, "", item.depKey, item.version, item.manifest);
    hide Justified, Grounded, Claimed, Covered, HasKey, Fills;
    ClaimsStay(rs, mid);
    if HasKey(mid, KeyOf(r)) {
      KeyIsCovered(mid, KeyOf(r));
    } else {
      if AllConfirmed(rs, app.id) { StillUncovered(app, rs, mid, item); }
      FillOne(lower, app, owners, items, rs, mid, r);
      assert forall i | 0 <= i < |mid| :: (mid + [r])[i] == mid[i];
    }
  }

  /** Where all was confirmed before, an occurrence that is not claimed and has no unknown relation has none. */
  lemma StillUncovered(app: Application, rs: seq<Relation>, mid: seq<Relation>, item: Item)
    requires Extends(rs, mid) && AllConfirmed(rs, app.id) && UnknownSince(app, rs, mid)
    requires !Claimed(mid, OccurrenceIn(app, item)) && !HasKey(mid, (app.id, "", item.depKey, item.version, item.manifest))
    ensures !Covered(mid, OccurrenceIn(app, item))
  {
    forall j | 0 <= j < |mid| ensures OccurrenceOf(mid[j]) != OccurrenceIn(app, item) {
      if j < |rs| { assert mid[j] == mid[..|rs|][j] == rs[j]; }
    }
  }

  predicate NoneOf(appId: string, rs: seq<Relation>) {
    forall i | 0 <= i < |rs| :: rs[i].app != appId
  }

  /** A relation of last resort is the only one of its occurrence. */
  predicate LoneSince(rs: seq<Relation>, start: nat) {
    forall i | start <= i < |rs| && rs[i].proof in {RootManifest, UnresolvedOrigin} :: Lone(rs, i)
  }

  /** Every occurrence has a relation; every deepest container and every walk that reaches it is one. */
  ghost predicate Accounted(lower: string -> string, app: Application, owners: seq<Component>, items: seq<Item>, rs: seq<Relation>) {
    && (forall item | item in items :: Covered(rs, OccurrenceIn(app, item)))
    && (forall item, c | item in items && IsDeepest(owners, item, c) :: HasKey(rs, KeyFor(app, c, item)))
    && (forall item, c | item in items && c in owners :: Reported(lower, app, rs, c, ByCoord(OfManifest(items, item.manifest))))
  }

  lemma AccountedIntro(lower: string -> string, app: Application, owners: seq<Component>, items: seq<Item>, rs: seq<Relation>)
    requires forall item | item in items :: Covered(rs, OccurrenceIn(app, item))
    requires forall item, c | item in items && IsDeepest(owners, item, c) :: HasKey(rs, KeyFor(app, c, item))
    requires forall item, c | item in items && c in owners :: Reported(lower, app, rs, c, ByCoord(OfManifest(items, item.manifest)))
    ensures Accounted(lower, app, owners, items, rs)
  {
  }

  /** The four stages together. */
  lemma AppAttributed(lower: string -> string, app: Application, owners: seq<Component>, items: seq<Item>,
                      r0: seq<Relation>, r2: seq<Relation>, r3: seq<Relation>, r4: seq<Relation>)
    requires Attributes(lower, app, owners, items, r0, r2)
    requires Fills(lower, app, owners, items, r2, r3) && Fills(lower, app, owners, items, r3, r4)
    requires AllConfirmed(r2, app.id) ==> AllConfirmed(r3, app.id)
    ensures Extends(r0, r4) && AllJustified(lower, app, owners, items, r4, |r0|)
    ensures forall k :: HasKey(r2, k) ==> HasKey(r4, k)
    ensures NoneOf(app.id, r0) ==> LoneSince(r4, |r0|)
  {
    hide Justified, HasKey, Lone;
    assert r3[..|r0|] == r3[..|r2|][..|r0|] && r4[..|r0|] == r4[..|r3|][..|r0|];
    assert r4[..|r2|] == r4[..|r3|][..|r2|];
    forall i | |r0| <= i < |r4| ensures Justified(lower, app, owners, items, r4[i]) {
      if i < |r2| { assert r4[i] == r4[..|r2|][i] == r2[i]; } else if i < |r3| { assert r4[i] == r4[..|r3|][i] == r3[i]; }
    }
    if NoneOf(app.id, r0) {
      forall i | |r0| <= i < |r4| && r4[i].proof in {RootManifest, UnresolvedOrigin} ensures Lone(r4, i) {
        if |r2| <= i < |r3| {
          assert r4[i] == r4[..|r3|][i] == r3[i];
          LoneStays(r3, r4, i);
        }
      }
    }
  }

  /** What one application leaves behind: the relations once its components have answered, and at the end. */
  datatype Stage = Stage(confirmed: seq<Relation>, after: seq<Relation>)

  /**
   * One application's part: its components' relations first, each with its grounds, then one of
   * unknown origin for each occurrence they left unclaimed. If no earlier relation has its id, or its
   * components have ids, all that some component answers for is claimed.
   */
  ghost predicate Step(lower: string -> string, app: Application, components: seq<Component>, occurrences: seq<Item>,
                       rs: seq<Relation>, s: Stage)
  {
    var owners, items := OwnersOf(app, components), ItemsOf(app, occurrences);
    && Extends(rs, s.confirmed) && Extends(s.confirmed, s.after)
    && AllJustified(lower, app, owners, items, s.after, |rs|)
    && ConfirmedSince(s.confirmed, |rs|)
    && UnknownSince(app, s.confirmed, s.after)
    && LastResortSince(s.after, |rs|)
    && Accounted(lower, app, owners, items, s.after)
    && (NoneOf(app.id, rs) || Named(owners) ==> AllClaimed(lower, app, owners, items, s.confirmed))
    && (NoneOf(app.id, rs) ==> LoneSince(s.after, |rs|))
  }

  /** A relation of last resort is for an occurrence that no confirmed one before it is about. */
  predicate LastResortSince(rs: seq<Relation>, start: nat) {
    forall i | start <= i < |rs| && rs[i].proof in {RootManifest, UnresolvedOrigin} :: !Claimed(rs[..i], OccurrenceOf(rs[i]))
  }

  lemma StepIntro(lower: string -> string, app: Application, components: seq<Component>, occurrences: seq<Item>,
                  rs: seq<Relation>, r2: seq<Relation>, r3: seq<Relation>, r4: seq<Relation>)
    requires var owners, items := OwnersOf(app, components), ItemsOf(app, occurrences);
             && Attributes(lower, app, owners, items, rs, r2)
             && Fills(lower, app, owners, items, r2, r3) && Fills(lower, app, owners, items, r3, r4)
             && ConfirmedSince(r3, |r2|) && UnknownSince(app, r3, r4)
             && AllJustified(lower, app, owners, items, r4, |rs|) && Accounted(lower, app, owners, items, r4)
             && (NoneOf(app.id, rs) || Named(owners) ==> OriginsClaimed(lower, app, owners, items, r2))
             && (NoneOf(app.id, rs) ==> AllConfirmed(r2, app.id))
             && (AllConfirmed(r2, app.id) || Named(owners) ==> RootClaimed(app, owners, items, r3))
             && (NoneOf(app.id, rs) ==> LoneSince(r4, |rs|))
    ensures Step(lower, app, components, occurrences, rs, Stage(r3, r4))
  {
    var owners, items := OwnersOf(app, components), ItemsOf(app, occurrences);
    hide OwnersOf, ItemsOf, Justified, Accounted, OriginsClaimed, RootClaimed, Claimed, LoneSince, HasKey, Lone;
    StillClaimed(lower, app, owners, items, r2, r3);
    ConfirmedByAll(lower, app, owners, items, rs, r2, r3);
    forall i | |rs| <= i < |r4| && r4[i].proof in {RootManifest, UnresolvedOrigin} ensures !Claimed(r4[..i], OccurrenceOf(r4[i])) {
      if i < |r3| {
        assert r4[..i] == r4[..|r3|][..i] == r3[..i] && r4[i] == r4[..|r3|][i] == r3[i];
      }
    }
  }

  lemma ConfirmedByAll(lower: string -> string, app: Application, owners: seq<Component>, items: seq<Item>,
                       rs: seq<Relation>, r2: seq<Relation>, r3: seq<Relation>)
    requires Attributes(lower, app, owners, items, rs, r2) && Extends(r2, r3) && ConfirmedSince(r3, |r2|)
    ensures Extends(rs, r3) && ConfirmedSince(r3, |rs|)
  {
    hide HasKey, AllConfirmed;
    assert r3[..|rs|] == r3[..|r2|][..|rs|];
    forall i | |rs| <= i < |r3| ensures r3[i].confirmed {
      if i < |r2| {
        assert r3[i] == r3[..|r2|][i] == r2[i] && Justified(lower, app, owners, items, r2[i]);
        JustifiedHasId(lower, app, owners, items, r2[i]);
      }
    }
  }

  lemma StillClaimed(lower: string -> string, app: Application, owners: seq<Component>, items: seq<Item>, rs: seq<Relation>, more: seq<Relation>)
    requires Extends(rs, more)
    ensures RootClaimed(app, owners, items, rs) ==> RootClaimed(app, owners, items, more)
    ensures OriginsClaimed(lower, app, owners, items, rs) ==> OriginsClaimed(lower, app, owners, items, more)
  {
    hide IsWalked, IsDeepest, Claimed, OccurrenceIn, ByCoord, OfManifest;
    ClaimsStay(rs, more);
  }

  lemma ClaimsStay(rs: seq<Relation>, more: seq<Relation>)
    requires Extends(rs, more)
    ensures forall o :: Claimed(rs, o) ==> Claimed(more, o)
  {
    forall o | Claimed(rs, o) ensures Claimed(more, o) {
      var i :| 0 <= i < |rs| && OccurrenceOf(rs[i]) == o && rs[i].confirmed;
      assert more[i] == more[..|rs|][i];
    }
  }

  /** Later relations that are each alone, or of another application, leave an earlier one alone. */
  lemma LoneStays(rs: seq<Relation>, more: seq<Relation>, i: nat)
    requires Extends(rs, more) && i < |rs| && Lone(rs, i)
    requires forall j | |rs| <= j < |more| :: Lone(more, j) || more[j].app != rs[i].app
    ensures Lone(more, i)
  {
    assert more[i] == more[..|rs|][i] == rs[i];
    forall j | 0 <= j < |more| && j != i ensures OccurrenceOf(more[j]) != OccurrenceOf(more[i]) {
      if j < |rs| { assert more[j] == more[..|rs|][j] == rs[j]; }
    }
  }

  predicate DistinctIds(applications: seq<Application>) {
    forall i, j | 0 <= i < j < |applications| :: applications[i].id != applications[j].id
  }

  ghost predicate JustifiedByOne(lower: string -> string, applications: seq<Application>, components: seq<Component>, occurrences: seq<Item>, r: Relation) {
    exists app :: app in applications && Justified(lower, app, OwnersOf(app, components), ItemsOf(app, occurrences), r)
  }

  /** What holds of the relations once some applications are done. */
  ghost predicate Built(lower: string -> string, applications: seq<Application>, components: seq<Component>, occurrences: seq<Item>, rs: seq<Relation>) {
    && (forall i | 0 <= i < |rs| :: JustifiedByOne(lower, applications, components, occurrences, rs[i]))
    && (forall app | app in applications :: Accounted(lower, app, OwnersOf(app, components), ItemsOf(app, occurrences), rs))
    && LastResortSince(rs, 0) && (DistinctIds(applications) ==> LoneSince(rs, 0))
  }

  lemma NothingBuilt(lower: string -> string, applications: seq<Application>, components: seq<Component>, occurrences: seq<Item>)
    ensures Built(lower, applications[..0], components, occurrences, [])
    ensures Ran(lower, applications[..0], components, occurrences, []) && After([], 0) == []
  {
  }

  lemma BuiltMore(lower: string -> string, applications: seq<Application>, n: nat, components: seq<Component>, occurrences: seq<Item>,
                  rs: seq<Relation>, s: Stage)
    requires n < |applications| && Built(lower, applications[..n], components, occurrences, rs)
    requires Step(lower, applications[n], components, occurrences, rs, s)
    ensures Built(lower, applications[..n + 1], components, occurrences, s.after)
  {
    hide Justified, Accounted, AllClaimed, Lone, Claimed, UnknownSince;
    var app, more := applications[n], s.after;
    var done, after := applications[..n], applications[..n + 1];
    assert after == done + [app] && more[..|rs|] == more[..|s.confirmed|][..|rs|] == rs;
    forall i | 0 <= i < |more| ensures JustifiedByOne(lower, after, components, occurrences, more[i]) {
      if i < |rs| {
        assert more[i] == more[..|rs|][i] == rs[i];
        assert JustifiedByOne(lower, done, components, occurrences, rs[i]);
        var a :| a in done && Justified(lower, a, OwnersOf(a, components), ItemsOf(a, occurrences), rs[i]);
        assert a in after;
      } else {
        assert app in after;
      }
    }
    forall a | a in after ensures Accounted(lower, a, OwnersOf(a, components), ItemsOf(a, occurrences), more) {
      if a in done { StillAccounted(lower, a, OwnersOf(a, components), ItemsOf(a, occurrences), rs, more); }
    }
    forall i | 0 <= i < |more| && more[i].proof in {RootManifest, UnresolvedOrigin} ensures !Claimed(more[..i], OccurrenceOf(more[i])) {
      if i < |rs| { assert more[..i] == more[..|rs|][..i] == rs[..i] && more[i] == more[..|rs|][i] == rs[i]; }
    }
    if DistinctIds(after) {
      LastResorts(lower, applications, n, components, occurrences, rs, more);
    }
  }

  lemma StillAccounted(lower: string -> string, app: Application, owners: seq<Component>, items: seq<Item>, rs: seq<Relation>, more: seq<Relation>)
    requires Extends(rs, more) && Accounted(lower, app, owners, items, rs)
    ensures Accounted(lower, app, owners, items, more)
  {
    hide IsWalked;
    forall k | HasKey(rs, k) ensures HasKey(more, k) {
      var i :| 0 <= i < |rs| && KeyOf(rs[i]) == k;
      assert more[i] == more[..|rs|][i];
    }
    CoveredStays(rs, more);
    StillReported(lower, app, rs, more);
  }

  lemma CoveredStays(rs: seq<Relation>, more: seq<Relation>)
    requires Extends(rs, more)
    ensures forall o :: Covered(rs, o) ==> Covered(more, o)
  {
    forall o | Covered(rs, o) ensures Covered(more, o) {
      var i :| 0 <= i < |rs| && OccurrenceOf(rs[i]) == o;
      assert more[i] == more[..|rs|][i];
    }
  }

  lemma JustifiedHasId(lower: string -> string, app: Application, owners: seq<Component>, items: seq<Item>, r: Relation)
    requires Justified(lower, app, owners, items, r)
    ensures r.app == app.id && (!r.confirmed <==> r.proof == UnresolvedOrigin) && (r.bond == Unknown <==> !r.confirmed)
    ensures exists x :: x in items && OccurrenceIn(app, x) == OccurrenceOf(r)
  {
  }

  lemma LastResorts(lower: string -> string, applications: seq<Application>, n: nat, components: seq<Component>, occurrences: seq<Item>,
                    rs: seq<Relation>, more: seq<Relation>)
    requires n < |applications| && DistinctIds(applications[..n + 1]) && Extends(rs, more)
    requires Built(lower, applications[..n], components, occurrences, rs)
    requires var app := applications[n];
             && AllJustified(lower, app, OwnersOf(app, components), ItemsOf(app, occurrences), more, |rs|)
             && (NoneOf(app.id, rs) ==> LoneSince(more, |rs|))
    ensures LoneSince(more, 0)
  {
    hide Justified, Accounted, AllClaimed, Lone, LastResortSince, OwnersOf, ItemsOf;
    var app := applications[n];
    var done, after := applications[..n], applications[..n + 1];
    assert after == done + [app] && after[n] == app;
    assert DistinctIds(done) by {
      forall i, j | 0 <= i < j < n ensures done[i].id != done[j].id { assert after[i] == done[i] && after[j] == done[j]; }
    }
    forall i | 0 <= i < |rs| ensures rs[i].app != app.id {
      assert JustifiedByOne(lower, done, components, occurrences, rs[i]);
      var a :| a in done && Justified(lower, a, OwnersOf(a, components), ItemsOf(a, occurrences), rs[i]);
      JustifiedHasId(lower, a, OwnersOf(a, components), ItemsOf(a, occurrences), rs[i]);
      var j :| 0 <= j < n && done[j] == a;
      assert after[j] == a;
    }
    forall j | |rs| <= j < |more| ensures more[j].app == app.id {
      JustifiedHasId(lower, app, OwnersOf(app, components), ItemsOf(app, occurrences), more[j]);
    }
    forall i | 0 <= i < |more| && more[i].proof in {RootManifest, UnresolvedOrigin} ensures Lone(more, i) {
      if i < |rs| {
        assert more[i] == more[..|rs|][i] == rs[i];
        LoneStays(rs, more, i);
      }
    }
  }

  // ---- The run, application by application ----

  /** The relations once the first `n` applications are done. */
  function After(run: seq<Stage>, n: nat): seq<Relation>
    requires n <= |run|
  {
    if n == 0 then [] else run[n - 1].after
  }

  ghost predicate Ran(lower: string -> string, applications: seq<Application>, components: seq<Component>, occurrences: seq<Item>, run: seq<Stage>) {
    && |run| == |applications|
    && forall n | 0 <= n < |run| :: Step(lower, applications[n], components, occurrences, After(run, n), run[n])
  }

  lemma RanMore(lower: string -> string, applications: seq<Application>, n: nat, components: seq<Component>, occurrences: seq<Item>,
                run: seq<Stage>, s: Stage)
    requires n < |applications| && Ran(lower, applications[..n], components, occurrences, run)
    requires Step(lower, applications[n], components, occurrences, After(run, n), s)
    ensures Ran(lower, applications[..n + 1], components, occurrences, run + [s]) && After(run + [s], n + 1) == s.after
  {
    hide Step, Extends;
    assert |run| == n;
    var more := run + [s];
    forall k | 0 <= k < |more| ensures Step(lower, applications[..n + 1][k], components, occurrences, After(more, k), more[k]) {
      assert After(more, k) == After(run, k);
      if k < n { assert applications[..n][k] == applications[k]; }
    }
  }

  lemma StepExtends(lower: string -> string, applications: seq<Application>, components: seq<Component>, occurrences: seq<Item>,
                    run: seq<Stage>, m: nat)
    requires Ran(lower, applications, components, occurrences, run) && m < |run|
    ensures Extends(After(run, m), run[m].confirmed) && Extends(run[m].confirmed, run[m].after)
  {
    hide Extends, AllJustified, ConfirmedSince, UnknownSince, LastResortSince, Accounted, AllClaimed, LoneSince, OwnersOf, ItemsOf;
    assert Step(lower, applications[m], components, occurrences, After(run, m), run[m]);
  }

  lemma {:induction false} RunExtends(lower: string -> string, applications: seq<Application>, components: seq<Component>, occurrences: seq<Item>,
                                      run: seq<Stage>, m: nat, n: nat)
    requires Ran(lower, applications, components, occurrences, run) && m <= n <= |run|
    ensures Extends(After(run, m), After(run, n))
    ensures m < n ==> Extends(run[m].confirmed, After(run, n))
    decreases n - m
  {
    if m < n {
      hide Ran, Extends;
      StepExtends(lower, applications, components, occurrences, run, m);
      RunExtends(lower, applications, components, occurrences, run, m + 1, n);
      ExtendsTwice(After(run, m), run[m].confirmed, run[m].after);
      ExtendsTwice(run[m].confirmed, run[m].after, After(run, n));
      ExtendsTwice(After(run, m), run[m].after, After(run, n));
    }
  }

  lemma ExtendsTwice(a: seq<Relation>, b: seq<Relation>, c: seq<Relation>)
    requires Extends(a, b) && Extends(b, c)
    ensures Extends(a, c)
  {
    assert c[..|a|] == c[..|b|][..|a|];
  }

  lemma RanSize(lower: string -> string, applications: seq<Application>, components: seq<Component>, occurrences: seq<Item>, run: seq<Stage>)
    requires Ran(lower, applications, components, occurrences, run)
    ensures |run| == |applications|
  {
  }

  /** The application whose part a relation was. */
  lemma {:induction false} PartOf(lower: string -> string, applications: seq<Application>, components: seq<Component>, occurrences: seq<Item>,
                                  run: seq<Stage>, n: nat, i: nat) returns (m: nat)
    requires Ran(lower, applications, components, occurrences, run) && n <= |run| && i < |After(run, n)|
    ensures m < n && |After(run, m)| <= i < |run[m].after| && run[m].after[i] == After(run, n)[i]
  {
    hide Step, Ran, Extends;
    RanSize(lower, applications, components, occurrences, run);
    if i < |After(run, n - 1)| {
      m := PartOf(lower, applications, components, occurrences, run, n - 1, i);
      RunExtends(lower, applications, components, occurrences, run, n - 1, n);
      StillThere(After(run, n - 1), After(run, n), i);
    } else {
      m := n - 1;
    }
  }

  lemma StillThere(rs: seq<Relation>, more: seq<Relation>, i: nat)
    requires Extends(rs, more) && i < |rs|
    ensures i < |more| && more[i] == rs[i]
  {
    assert more[i] == more[..|rs|][i];
  }

  // ---- What exactly is of unknown origin ----

  /** The package is held by a deepest container, reached from an owner, or left to the primary component. */
  ghost predicate HasOrigin(lower: string -> string, app: Application, owners: seq<Component>, items: seq<Item>, item: Item) {
    || (exists c :: IsDeepest(owners, item, c))
    || (exists c :: c in owners && IsReached(lower, items, c, item))
    || (Primary(owners).Some? && Dirname(item.relManifest) == Root(app))
  }

  /** A chain within the link bound leads from the owner's package to this one. */
  ghost predicate IsReached(lower: string -> string, items: seq<Item>, owner: Component, item: Item) {
    var g := ByCoord(OfManifest(items, item.manifest));
    && owner.kind in TARGET_KINDS && owner.coord != ""
    && item.coord in Near(lower, g, lower(owner.coord), MAX_LINKS) && g[item.coord] == item
  }

  lemma GroundedHasOrigin(lower: string -> string, app: Application, owners: seq<Component>, items: seq<Item>, item: Item,
                          owner: Component, proof: Proof, path: seq<string>)
    requires Grounded(lower, app, owners, items, item, Some(owner), proof, path)
    ensures HasOrigin(lower, app, owners, items, item)
  {
    if proof == ComposerRequire {
      var g := ByCoord(OfManifest(items, item.manifest));
      assert IsChain(lower, g, lower(owner.coord), path);
      hide IsChain, IsShortest, IsDeepest;
      assert IsReached(lower, items, owner, item);
    }
  }

  /** No owner reaches the package only behind more others than its walk may visit. */
  ghost predicate NotCrowdedOut(lower: string -> string, owners: seq<Component>, items: seq<Item>, item: Item) {
    forall c | c in owners && IsReached(lower, items, c, item) :: IsClose(lower, ByCoord(OfManifest(items, item.manifest)), lower(c.coord), item.coord)
  }

  lemma OriginIsClaimed(lower: string -> string, app: Application, owners: seq<Component>, items: seq<Item>, rs: seq<Relation>, item: Item)
    requires AllClaimed(lower, app, owners, items, rs) && item in items && HasOrigin(lower, app, owners, items, item)
    requires NotCrowdedOut(lower, owners, items, item)
    ensures Claimed(rs, OccurrenceIn(app, item))
  {
    hide IsDeepest, IsClose, Claimed, ByCoord, OfManifest, Dirname;
    if c :| c in owners && IsReached(lower, items, c, item) {
      var g := ByCoord(OfManifest(items, item.manifest));
      assert WalkClaimed(lower, app, rs, c, g) && IsWalked(lower, g, c, item.coord);
    }
  }

  /** An occurrence as the application sees it, whichever package entry of the manifest it comes from. */
  ghost predicate OccursWithOrigin(lower: string -> string, app: Application, owners: seq<Component>, items: seq<Item>, o: OccurrenceKey) {
    exists x :: x in items && OccurrenceIn(app, x) == o && HasOrigin(lower, app, owners, items, x)
  }

  predicate Holds(app: Application, occurrences: seq<Item>, o: OccurrenceKey) {
    exists x :: x in ItemsOf(app, occurrences) && OccurrenceIn(app, x) == o
  }

  /** Application `n` is the first with the occurrence's id that holds it. */
  ghost predicate FirstHolder(applications: seq<Application>, occurrences: seq<Item>, n: nat, o: OccurrenceKey) {
    n < |applications| && Holds(applications[n], occurrences, o) && forall m | 0 <= m < n :: !Holds(applications[m], occurrences, o)
  }

  ghost predicate HasUnknown(rs: seq<Relation>, o: OccurrenceKey) {
    exists i :: 0 <= i < |rs| && OccurrenceOf(rs[i]) == o && rs[i].bond == Unknown
  }

  /** A relation belongs to an application that holds its occurrence; its first part is confirmed, its second not. */
  lemma RelationOf(lower: string -> string, applications: seq<Application>, components: seq<Component>, occurrences: seq<Item>,
                   run: seq<Stage>, n: nat, i: nat) returns (m: nat)
    requires Ran(lower, applications, components, occurrences, run) && n <= |run| && i < |After(run, n)|
    ensures var r := After(run, n)[i];
            && m < n && |After(run, m)| <= i < |run[m].after| && run[m].after[i] == r
            && Holds(applications[m], occurrences, OccurrenceOf(r)) && (r.bond == Unknown <==> !r.confirmed)
            && (r.confirmed ==> i < |run[m].confirmed| && run[m].confirmed[i] == r)
            && (r.confirmed <==> Claimed(run[m].confirmed, OccurrenceOf(r)))
            && Justified(lower, applications[m], OwnersOf(applications[m], components), ItemsOf(applications[m], occurrences), r)
  {
    m := PartOf(lower, applications, components, occurrences, run, n, i);
    var s := run[m];
    assert Step(lower, applications[m], components, occurrences, After(run, m), s);
    hide Ran, Step, Justified, Claimed, Holds, OwnersOf, ItemsOf;
    PartFacts(lower, applications[m], components, occurrences, After(run, m), s, i);
  }

  lemma PartFacts(lower: string -> string, app: Application, components: seq<Component>, occurrences: seq<Item>,
                  rs: seq<Relation>, s: Stage, i: nat)
    requires Step(lower, app, components, occurrences, rs, s) && |rs| <= i < |s.after|
    ensures var r := s.after[i];
            && Holds(app, occurrences, OccurrenceOf(r)) && (r.bond == Unknown <==> !r.confirmed)
            && (r.confirmed ==> i < |s.confirmed| && s.confirmed[i] == r)
            && (r.confirmed <==> Claimed(s.confirmed, OccurrenceOf(r)))
            && Justified(lower, app, OwnersOf(app, components), ItemsOf(app, occurrences), r)
  {
    hide Accounted, AllClaimed, LoneSince, LastResortSince, ItemsOf, OwnersOf, NoneOf, Named;
    var r := s.after[i];
    assert Justified(lower, app, OwnersOf(app, components), ItemsOf(app, occurrences), r);
    JustifiedHasId(lower, app, OwnersOf(app, components), ItemsOf(app, occurrences), r);
    hide Justified;
    if i < |s.confirmed| { assert r == s.after[..|s.confirmed|][i] == s.confirmed[i]; }
  }

  /**
   * Whatever the ids: an occurrence inside an application has a relation, and one of unknown origin
   * iff the first application that holds it found no component answering for it.
   */
  lemma UnknownIffLeftUnclaimed(lower: string -> string, applications: seq<Application>, components: seq<Component>, occurrences: seq<Item>,
                                run: seq<Stage>, n: nat, o: OccurrenceKey)
    requires Ran(lower, applications, components, occurrences, run) && FirstHolder(applications, occurrences, n, o)
    ensures Covered(After(run, |run|), o)
    ensures HasUnknown(After(run, |run|), o) <==> !Claimed(run[n].confirmed, o)
  {
    hide Ran, Claimed, Covered, Holds, HasUnknown, Extends;
    RanSize(lower, applications, components, occurrences, run);
    var rs, s := After(run, |run|), run[n];
    HeldIsCovered(lower, applications, components, occurrences, run, n, o);
    RunExtends(lower, applications, components, occurrences, run, n + 1, |run|);
    assert After(run, n + 1) == s.after;
    CoveredStays(s.after, rs);
    if Claimed(s.confirmed, o) {
      NeverUnknown(lower, applications, components, occurrences, run, n, o);
    } else {
      LeftUnknown(lower, applications, components, occurrences, run, n, o);
      UnknownStays(s.after, rs, o);
    }
  }

  lemma UnknownStays(rs: seq<Relation>, more: seq<Relation>, o: OccurrenceKey)
    requires Extends(rs, more) && HasUnknown(rs, o)
    ensures HasUnknown(more, o)
  {
    var i :| 0 <= i < |rs| && OccurrenceOf(rs[i]) == o && rs[i].bond == Unknown;
    assert more[i] == more[..|rs|][i];
  }

  lemma HeldIsCovered(lower: string -> string, applications: seq<Application>, components: seq<Component>, occurrences: seq<Item>,
                      run: seq<Stage>, n: nat, o: OccurrenceKey)
    requires Ran(lower, applications, components, occurrences, run) && n < |run| && Holds(applications[n], occurrences, o)
    ensures Covered(run[n].after, o)
  {
    assert Step(lower, applications[n], components, occurrences, After(run, n), run[n]);
    hide Ran, Covered, AllClaimed, LoneSince, LastResortSince, UnknownSince, AllJustified, ItemsOf, OwnersOf, IsDeepest, Reported;
  }

  lemma NeverUnknown(lower: string -> string, applications: seq<Application>, components: seq<Component>, occurrences: seq<Item>,
                     run: seq<Stage>, n: nat, o: OccurrenceKey)
    requires Ran(lower, applications, components, occurrences, run) && FirstHolder(applications, occurrences, n, o)
    requires Claimed(run[n].confirmed, o)
    ensures !HasUnknown(After(run, |run|), o)
  {
    hide Ran, Claimed, Justified, Holds, OwnersOf, ItemsOf;
    RanSize(lower, applications, components, occurrences, run);
    var rs := After(run, |run|);
    if HasUnknown(rs, o) {
      var i :| 0 <= i < |rs| && OccurrenceOf(rs[i]) == o && rs[i].bond == Unknown;
      var m := RelationOf(lower, applications, components, occurrences, run, |run|, i);
      ClaimsSurvive(lower, applications, components, occurrences, run, n, m, o);
    }
  }

  lemma ClaimsSurvive(lower: string -> string, applications: seq<Application>, components: seq<Component>, occurrences: seq<Item>,
                      run: seq<Stage>, n: nat, m: nat, o: OccurrenceKey)
    requires Ran(lower, applications, components, occurrences, run) && n <= m < |run| && Claimed(run[n].confirmed, o)
    ensures Claimed(run[m].confirmed, o)
  {
    hide Ran, Claimed;
    if n < m {
      RunExtends(lower, applications, components, occurrences, run, n, m);
      StepExtends(lower, applications, components, occurrences, run, m);
      hide Extends;
      ClaimsStay(run[n].confirmed, After(run, m));
      ClaimsStay(After(run, m), run[m].confirmed);
    }
  }

  lemma LeftUnknown(lower: string -> string, applications: seq<Application>, components: seq<Component>, occurrences: seq<Item>,
                    run: seq<Stage>, n: nat, o: OccurrenceKey)
    requires Ran(lower, applications, components, occurrences, run) && FirstHolder(applications, occurrences, n, o)
    requires Covered(run[n].after, o) && !Claimed(run[n].confirmed, o)
    ensures HasUnknown(run[n].after, o)
  {
    hide Ran, Claimed, Justified, Holds, OwnersOf, ItemsOf;
    RanSize(lower, applications, components, occurrences, run);
    assert After(run, n + 1) == run[n].after;
    var i :| 0 <= i < |run[n].after| && OccurrenceOf(run[n].after[i]) == o;
    var m := RelationOf(lower, applications, components, occurrences, run, n + 1, i);
  }

  /** Where one application alone holds the occurrence, it is of unknown origin iff no component was related to it. */
  lemma UnknownIffUnclaimed(lower: string -> string, applications: seq<Application>, components: seq<Component>, occurrences: seq<Item>,
                            run: seq<Stage>, n: nat, o: OccurrenceKey)
    requires Ran(lower, applications, components, occurrences, run) && FirstHolder(applications, occurrences, n, o)
    requires forall m | n < m < |applications| :: !Holds(applications[m], occurrences, o)
    ensures HasUnknown(After(run, |run|), o) <==> !Claimed(After(run, |run|), o)
  {
    hide Ran, Justified, Holds, HasUnknown, OwnersOf, ItemsOf;
    RanSize(lower, applications, components, occurrences, run);
    var rs := After(run, |run|);
    UnknownIffLeftUnclaimed(lower, applications, components, occurrences, run, n, o);
    RunExtends(lower, applications, components, occurrences, run, n, |run|);
    ClaimsStay(run[n].confirmed, rs);
    if Claimed(rs, o) {
      var i :| 0 <= i < |rs| && OccurrenceOf(rs[i]) == o && rs[i].confirmed;
      var m := RelationOf(lower, applications, components, occurrences, run, |run|, i);
      assert m == n;
    }
  }

  /** No earlier application has its id, or its components have one each. */
  ghost predicate Apart(applications: seq<Application>, components: seq<Component>, n: nat)
    requires n < |applications|
  {
    (forall m | 0 <= m < n :: applications[m].id != applications[n].id) || Named(OwnersOf(applications[n], components))
  }

  /**
   * An occurrence is of unknown origin iff, in the first application that holds it, no deepest
   * container holds it, no chain within the link bound leads to it from an owner's package, and it is
   * not a package of the root manifest of an application with a primary component.
   */
  lemma UnknownIffNoOrigin(lower: string -> string, applications: seq<Application>, components: seq<Component>, occurrences: seq<Item>,
                           run: seq<Stage>, n: nat, o: OccurrenceKey)
    requires Ran(lower, applications, components, occurrences, run) && FirstHolder(applications, occurrences, n, o)
    requires Apart(applications, components, n)
    requires var app := applications[n]; var items := ItemsOf(app, occurrences);
             forall x | x in items && OccurrenceIn(app, x) == o :: NotCrowdedOut(lower, OwnersOf(app, components), items, x)
    ensures HasUnknown(After(run, |run|), o) <==>
            !OccursWithOrigin(lower, applications[n], OwnersOf(applications[n], components), ItemsOf(applications[n], occurrences), o)
  {
    hide Ran, AllClaimed, HasOrigin, Claimed, OwnersOf, ItemsOf, NotCrowdedOut, HasUnknown, Apart;
    RanSize(lower, applications, components, occurrences, run);
    var app, s := applications[n], run[n];
    var owners, items := OwnersOf(app, components), ItemsOf(app, occurrences);
    UnknownIffLeftUnclaimed(lower, applications, components, occurrences, run, n, o);
    PartIsClaimed(lower, applications, components, occurrences, run, n);
    if Claimed(s.confirmed, o) { ClaimedHasOrigin(lower, applications, components, occurrences, run, n, o); }
    if OccursWithOrigin(lower, app, owners, items, o) {
      var x :| x in items && OccurrenceIn(app, x) == o && HasOrigin(lower, app, owners, items, x);
      OriginIsClaimed(lower, app, owners, items, s.confirmed, x);
    }
  }

  lemma PartIsClaimed(lower: string -> string, applications: seq<Application>, components: seq<Component>, occurrences: seq<Item>,
                      run: seq<Stage>, n: nat)
    requires Ran(lower, applications, components, occurrences, run) && n < |run| && Apart(applications, components, n)
    ensures AllClaimed(lower, applications[n], OwnersOf(applications[n], components), ItemsOf(applications[n], occurrences), run[n].confirmed)
  {
    var rs := After(run, n);
    assert Step(lower, applications[n], components, occurrences, rs, run[n]);
    hide Ran, AllClaimed, OwnersOf, ItemsOf, Justified, Claimed;
    if forall m | 0 <= m < n :: applications[m].id != applications[n].id {
      forall i | 0 <= i < |rs| ensures rs[i].app != applications[n].id {
        var m := RelationOf(lower, applications, components, occurrences, run, n, i);
      }
    }
  }

  lemma ClaimedHasOrigin(lower: string -> string, applications: seq<Application>, components: seq<Component>, occurrences: seq<Item>,
                         run: seq<Stage>, n: nat, o: OccurrenceKey)
    requires Ran(lower, applications, components, occurrences, run) && FirstHolder(applications, occurrences, n, o)
    requires Claimed(run[n].confirmed, o)
    ensures OccursWithOrigin(lower, applications[n], OwnersOf(applications[n], components), ItemsOf(applications[n], occurrences), o)
  {
    hide Ran, Justified, HasOrigin, OwnersOf, ItemsOf, Holds, OccursWithOrigin;
    RanSize(lower, applications, components, occurrences, run);
    var i :| 0 <= i < |run[n].confirmed| && OccurrenceOf(run[n].confirmed[i]) == o && run[n].confirmed[i].confirmed;
    ConfirmedFirst(lower, applications, components, occurrences, run, n);
    var m := RelationOf(lower, applications, components, occurrences, run, n + 1, i);
    assert m == n;
    JustifiedOrigin(lower, applications[n], OwnersOf(applications[n], components), ItemsOf(applications[n], occurrences), run[n].after[i]);
  }

  lemma ConfirmedFirst(lower: string -> string, applications: seq<Application>, components: seq<Component>, occurrences: seq<Item>,
                       run: seq<Stage>, n: nat)
    requires Ran(lower, applications, components, occurrences, run) && n < |run|
    ensures |run[n].confirmed| <= |After(run, n + 1)|
    ensures forall i | 0 <= i < |run[n].confirmed| :: After(run, n + 1)[i] == run[n].confirmed[i]
  {
    RunExtends(lower, applications, components, occurrences, run, n, n + 1);
    hide Ran;
    var s := run[n];
    assert forall i | 0 <= i < |s.confirmed| :: s.after[i] == s.after[..|s.confirmed|][i];
  }

  lemma JustifiedOrigin(lower: string -> string, app: Application, owners: seq<Component>, items: seq<Item>, r: Relation)
    requires Justified(lower, app, owners, items, r) && r.confirmed
    ensures OccursWithOrigin(lower, app, owners, items, OccurrenceOf(r))
  {
    hide Grounded, HasOrigin;
    var x, owner :| x in items && r == Relate(lower, app, owner, x, r.proof, r.path)
                    && Grounded(lower, app, owners, items, x, owner, r.proof, r.path);
    GroundedHasOrigin(lower, app, owners, items, x, owner.value, r.proof, r.path);
  }

  /**
   * With one id for two applications an occurrence can be both: the outer one finds no component for
   * it, the inner one, whose root manifest lists it, does.
   */
  lemma SharedIdGetsBoth(lower: string -> string, item: Item, core: Component, run: seq<Stage>)
    requires item.relManifest == "sub/composer.lock" && core == Component("c", "x", "core", "", "")
    requires Ran(lower, [Application("x", "."), Application("x", "sub")], [core], [item], run)
    ensures var o := ("x", item.depKey, item.version, item.manifest);
            HasUnknown(After(run, |run|), o) && Claimed(After(run, |run|), o)
  {
    hide Ran, Step, IsWalked, IsReached, HasUnknown, Claimed, Grounded;
    var outer, inner := Application("x", "."), Application("x", "sub");
    var apps, o := [outer, inner], ("x", item.depKey, item.version, item.manifest);
    RanSize(lower, apps, [core], [item], run);
    SubManifest(item);
    assert item in [item] && [item][0] == item && core in [core] && [core][0] == core;
    assert Holds(outer, [item], o) by { assert OccurrenceIn(outer, item) == o && item in ItemsOf(outer, [item]); }
    OuterHasNoOrigin(lower, item, core, o);
    UnknownIffNoOrigin(lower, apps, [core], [item], run, 0, o);
    PartIsClaimed(lower, apps, [core], [item], run, 1);
    assert item in ItemsOf(inner, [item]) && core in OwnersOf(inner, [core]);
    assert Claimed(run[1].confirmed, OccurrenceIn(inner, item));
    RunExtends(lower, apps, [core], [item], run, 1, 2);
    ClaimsStay(run[1].confirmed, After(run, 2));
  }

  lemma SubManifest(item: Item)
    requires item.relManifest == "sub/composer.lock"
    ensures Dirname(item.relManifest) == "sub" && Within(item.relManifest, ".") && Within(item.relManifest, "sub")
    ensures Root(Application("x", ".")) == "." && Root(Application("x", "sub")) == "sub"
  {
    var p := item.relManifest;
    assert p[..3] == "sub" && p[3] == '/' && "sub"[..2][0] == 's';
    DirnameOf(p, 3);
  }

  lemma {:induction false} DirnameOf(p: string, k: nat)
    requires 0 < k < |p| && p[k] == '/' && forall i | k < i < |p| :: p[i] != '/'
    ensures Dirname(p) == p[..k]
  {
    if |p| > k + 1 {
      DirnameOf(p[..|p| - 1], k);
      assert p[..|p| - 1][..k] == p[..k];
    }
  }

  lemma OuterHasNoOrigin(lower: string -> string, item: Item, core: Component, o: OccurrenceKey)
    requires item.relManifest == "sub/composer.lock" && core == Component("c", "x", "core", "", "")
    ensures var outer := Application("x", ".");
            var owners, items := OwnersOf(outer, [core]), ItemsOf(outer, [item]);
            && !OccursWithOrigin(lower, outer, owners, items, o)
            && (forall x | x in items :: NotCrowdedOut(lower, owners, items, x))
            && Named(owners)
  {
    SubManifest(item);
    var outer := Application("x", ".");
    var owners, items := OwnersOf(outer, [core]), ItemsOf(outer, [item]);
    assert forall c | c in owners :: c == core;
    assert forall x | x in items :: x == item;
    forall c | c in owners ensures c.kind == "core" && c.coord == "" && c.id == "c" { }
  }

  lemma NothingAttributed(lower: string -> string, app: Application, owners: seq<Component>, items: seq<Item>, rs: seq<Relation>)
    ensures Attributes(lower, app, owners, items, rs, rs)
  {
  }

  lemma AttributesTransitive(lower: string -> string, app: Application, owners: seq<Component>, items: seq<Item>,
                             rs: seq<Relation>, mid: seq<Relation>, more: seq<Relation>)
    requires Attributes(lower, app, owners, items, rs, mid) && Attributes(lower, app, owners, items, mid, more)
    ensures Attributes(lower, app, owners, items, rs, more)
    ensures forall k :: HasKey(mid, k) ==> HasKey(more, k)
  {
    hide Justified, HasKey, AllConfirmed;
    assert more[..|rs|] == more[..|mid|][..|rs|];
    forall i | |rs| <= i < |more| ensures Justified(lower, app, owners, items, more[i]) {
      if i < |mid| { assert more[i] == more[..|mid|][i]; }
    }
  }

  function KeyFor(app: Application, owner: Component, item: Item): Key {
    (app.id, owner.id, item.depKey, item.version, item.manifest)
  }

  predicate AllConfirmed(rs: seq<Relation>, appId: string) {
    forall i | 0 <= i < |rs| && rs[i].app == appId :: rs[i].confirmed
  }

  function MaxDepth(cs: seq<Component>): (deepest: nat)
    requires cs != []
    ensures forall c | c in cs :: |Posix(c.path)| <= deepest
    ensures exists c :: c in cs && |Posix(c.path)| == deepest
  {
    if |cs| == 1 then assert cs[0] in cs; |Posix(cs[0].path)|
    else
      var rest := MaxDepth(cs[1..]);
      assert forall c :: c in cs <==> c == cs[0] || c in cs[1..];
      if |Posix(cs[0].path)| >= rest then |Posix(cs[0].path)| else rest
  }

  lemma Appended(rs: seq<Relation>, r: Relation)
    ensures forall k :: HasKey(rs + [r], k) <==> HasKey(rs, k) || k == KeyOf(r)
    ensures forall o :: Covered(rs + [r], o) <==> Covered(rs, o) || o == OccurrenceOf(r)
    ensures forall o :: Claimed(rs + [r], o) <==> Claimed(rs, o) || (o == OccurrenceOf(r) && r.confirmed)
  {
    var more := rs + [r];
    assert more[|rs|] == r;
    assert forall i | 0 <= i < |rs| :: more[i] == rs[i];
    forall k ensures HasKey(more, k) <==> HasKey(rs, k) || k == KeyOf(r) {
      if HasKey(rs, k) {
        var i :| 0 <= i < |rs| && KeyOf(rs[i]) == k;
        assert KeyOf(more[i]) == k;
      }
    }
    forall o ensures Covered(more, o) <==> Covered(rs, o) || o == OccurrenceOf(r) {
      if Covered(rs, o) {
        var i :| 0 <= i < |rs| && OccurrenceOf(rs[i]) == o;
        assert OccurrenceOf(more[i]) == o;
      }
    }
    forall o ensures Claimed(more, o) <==> Claimed(rs, o) || (o == OccurrenceOf(r) && r.confirmed) {
      if Claimed(rs, o) {
        var i :| 0 <= i < |rs| && OccurrenceOf(rs[i]) == o && rs[i].confirmed;
        assert OccurrenceOf(more[i]) == o && more[i].confirmed;
      }
    }
  }
}
