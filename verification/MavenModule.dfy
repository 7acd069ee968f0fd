/**
 * lib/maven-reactor.js:49-70, 94-194: what one module really manages and depends on.
 *
 * Coordinates and versions arrive interpolated with the properties of their own POM; whether a
 * string is a version range, what a range resolves to, which imports are local and what an
 * external POM effectively holds are parameters. A missing version or scope is None.
 */
module MavenModule {
  import opened Basics
  import opened MavenReactor

  datatype Gav = Gav(groupId: string, artifactId: string, version: string)

  // ---- The local parent chain ----

  /** `known` are the scanned POMs; `parentOf` finds a parent among them. */
  datatype Store = Store(known: set<string>, parentOf: string -> Option<string>, externalParentOf: string -> Option<Gav>)

  /** Each POM once, each the local parent of the one before it. */
  ghost predicate IsChain(st: Store, pomPath: string, chain: seq<string>) {
    && chain != [] && chain[0] == pomPath && Distinct(chain)
    && forall i :: 0 <= i < |chain| - 1 ==> chain[i] in st.known && st.parentOf(chain[i]) == Some(chain[i + 1])
  }

  /** Why a chain stops: an unscanned POM, no local parent, or a parent it has been through. */
  predicate Ends(st: Store, chain: seq<string>)
    requires chain != []
  {
    var last := chain[|chain| - 1];
    last !in st.known || st.parentOf(last).None? || st.parentOf(last).value in chain
  }

  /** Local parents, child first, and the external parent above the topmost, if it has one. */
  method LocalChain(st: Store, pomPath: string) returns (chain: seq<string>, externalParent: Option<Gav>)
    ensures IsChain(st, pomPath, chain) && Ends(st, chain)
    ensures externalParent ==
            var top := chain[|chain| - 1];
            if top in st.known && st.parentOf(top).None? then st.externalParentOf(top) else None
  {
    chain, externalParent := [], None;
    var cur := pomPath;
    ghost var unseen := st.known;
    while cur !in chain
      invariant chain != [] ==> IsChain(st, pomPath, chain) && chain[|chain| - 1] in st.known && st.parentOf(chain[|chain| - 1]) == Some(cur)
      invariant chain == [] ==> cur == pomPath
      invariant externalParent == None
      invariant forall p | p in st.known && p !in chain :: p in unseen
      decreases unseen
    {
      ghost var before := chain;
      DistinctConcat(chain, if cur in chain then [] else [cur]);
      chain := chain + [cur];
      assert forall i | 0 <= i < |before| :: chain[i] == before[i];
      if cur !in st.known { return; }
      var parentPath := st.parentOf(cur);
      if parentPath.None? {
        externalParent := st.externalParentOf(cur);
        return;
      }
      unseen := unseen - {cur};
      cur := parentPath.value;
    }
  }

  // ---- What a module manages ----

  datatype Managed = Managed(version: Option<string>, scope: Option<Scope>, exclusions: seq<string>, source: Option<(string, Gav)>)

  /** One dependencyManagement entry of a local POM; an import names a BOM. */
  datatype Node = Node(groupId: string, artifactId: string, version: Option<string>, scope: Option<Scope>, exclusions: seq<string>)

  /** One managed entry of an external POM, and whether that POM itself imported it. */
  datatype Effective = Effective(key: string, version: Option<string>, scope: Option<Scope>, exclusions: seq<string>, fromImport: bool)

  datatype World = World(
    isRange: string -> bool,
    resolveRange: (string, string) -> Option<string>,
    hasPlaceholder: string -> bool,
    isLocal: (string, string, Option<string>) -> bool,
    effectiveMgmt: Gav -> seq<Effective>,
    parentMgmt: Gav -> seq<Effective>)

  predicate Concrete(w: World, v: Option<string>) {
    v.Some? && v.value != "" && !w.hasPlaceholder(v.value) && !w.isRange(v.value)
  }

  type Pairs = seq<(string, Managed)>

  function Key(groupId: string, artifactId: string): string {
    groupId + ":" + artifactId
  }

  /** The explicit entries of the local POMs, and the external BOMs they import, in order. */
  function ExplicitOf(n: Node): Pairs {
    if n.groupId == "" || n.artifactId == "" || n.scope == Some(Named("import")) then []
    else [(Key(n.groupId, n.artifactId), Managed(n.version, n.scope, n.exclusions, None))]
  }

  function Explicit(nodes: seq<Node>): Pairs {
    if nodes == [] then [] else Explicit(nodes[..|nodes| - 1]) + ExplicitOf(nodes[|nodes| - 1])
  }

  function BomsOf(w: World, n: Node): seq<Gav> {
    if n.groupId != "" && n.artifactId != "" && n.scope == Some(Named("import"))
       && !w.isLocal(n.groupId, n.artifactId, n.version) && Concrete(w, n.version) then
      [Gav(n.groupId, n.artifactId, n.version.value)]
    else []
  }

  function Boms(w: World, nodes: seq<Node>): seq<Gav> {
    if nodes == [] then [] else Boms(w, nodes[..|nodes| - 1]) + BomsOf(w, nodes[|nodes| - 1])
  }

  function NodesOf(mgmt: map<string, seq<Node>>, chain: seq<string>): seq<Node> {
    if chain == [] then []
    else NodesOf(mgmt, chain[..|chain| - 1]) + if chain[|chain| - 1] in mgmt then mgmt[chain[|chain| - 1]] else []
  }

  function PairOf(e: Effective, via: string, bom: Gav): (string, Managed) {
    (e.key, Managed(e.version, e.scope, e.exclusions, Some((via, bom))))
  }

  function FromExternal(es: seq<Effective>, via: string, bom: Gav, imported: bool): Pairs {
    if es == [] then []
    else
      var e := es[|es| - 1];
      FromExternal(es[..|es| - 1], via, bom, imported) + if e.fromImport == imported then [PairOf(e, via, bom)] else []
  }

  function AllOf(es: seq<Effective>, via: string, bom: Gav): Pairs {
    if es == [] then [] else AllOf(es[..|es| - 1], via, bom) + [PairOf(es[|es| - 1], via, bom)]
  }

  function FromBoms(w: World, boms: seq<Gav>): Pairs {
    if boms == [] then []
    else FromBoms(w, boms[..|boms| - 1]) + AllOf(w.effectiveMgmt(boms[|boms| - 1]), "bom", boms[|boms| - 1])
  }

  /** Every source in Maven's order of precedence. */
  function Sources(w: World, mgmt: map<string, seq<Node>>, chain: seq<string>, externalParent: Option<Gav>): Pairs {
    var nodes := NodesOf(mgmt, chain);
    var own, boms := Explicit(nodes), FromBoms(w, Boms(w, nodes));
    if externalParent.None? then own + [] + boms + []
    else
      var es := w.parentMgmt(externalParent.value);
      own + FromExternal(es, "parent", externalParent.value, false) + boms + FromExternal(es, "parent", externalParent.value, true)
  }

  function Lookup(mgmt: map<string, Managed>, k: string): Option<Managed> {
    if k in mgmt then Some(mgmt[k]) else None
  }

  function FirstOf(w: World, ps: Pairs, k: string): Option<Managed> {
    if ps == [] then None
    else
      var first, (key, e) := FirstOf(w, ps[..|ps| - 1], k), ps[|ps| - 1];
      if first.Some? || key != k || !Concrete(w, e.version) then first else Some(e)
  }

  /** Each coordinate is mapped to its first concrete entry; one without any is not mapped. */
  ghost predicate FirstWins(w: World, out: map<string, Managed>, ps: Pairs) {
    "" !in out && forall k | k != "" :: Lookup(out, k) == FirstOf(w, ps, k)
  }

  lemma {:induction false} FirstOfJoined(w: World, ps: Pairs, more: Pairs, k: string)
    ensures FirstOf(w, ps + more, k) == if FirstOf(w, ps, k).Some? then FirstOf(w, ps, k) else FirstOf(w, more, k)
  {
    hide Concrete;
    if more == [] {
      assert ps + more == ps;
    } else {
      var rest := more[..|more| - 1];
      assert (ps + more)[..|ps + more| - 1] == ps + rest;
      FirstOfJoined(w, ps, rest, k);
    }
  }

  method SetAll(w: World, before: map<string, Managed>, ghost ps: Pairs, more: Pairs) returns (out: map<string, Managed>)
    requires FirstWins(w, before, ps)
    ensures FirstWins(w, out, ps + more)
  {
    hide *;
    out := before;
    assert ps + more[..0] == ps;
    for i := 0 to |more|
      invariant FirstWins(w, out, ps + more[..i])
    {
      var (k, e) := more[i];
      SetOne(w, out, ps + more[..i], k, e);
      assert ps + more[..i + 1] == (ps + more[..i]) + [(k, e)];
      if k != "" && k !in out && Concrete(w, e.version) { out := out[k := e]; }
    }
    assert more[..|more|] == more;
  }

  lemma SetOne(w: World, out: map<string, Managed>, ps: Pairs, k: string, e: Managed)
    requires FirstWins(w, out, ps)
    ensures FirstWins(w, if k != "" && k !in out && Concrete(w, e.version) then out[k := e] else out, ps + [(k, e)])
  {
    hide Concrete;
    var more := ps + [(k, e)];
    assert more[..|ps|] == ps;
    forall x | x != "" ensures Lookup(if k != "" && k !in out && Concrete(w, e.version) then out[k := e] else out, x) == FirstOf(w, more, x) {
      assert Lookup(out, x) == FirstOf(w, ps, x);
    }
  }

  method SetBoms(w: World, before: map<string, Managed>, ghost ps: Pairs, boms: seq<Gav>) returns (out: map<string, Managed>)
    requires FirstWins(w, before, ps)
    ensures FirstWins(w, out, ps + FromBoms(w, boms))
  {
    out := before;
    hide FirstWins;
    assert ps + FromBoms(w, boms[..0]) == ps;
    for i := 0 to |boms|
      invariant FirstWins(w, out, ps + FromBoms(w, boms[..i]))
    {
      assert boms[..i + 1][..i] == boms[..i];
      var more := AllOf(w.effectiveMgmt(boms[i]), "bom", boms[i]);
      out := SetAll(w, out, ps + FromBoms(w, boms[..i]), more);
      assert ps + FromBoms(w, boms[..i]) + more == ps + FromBoms(w, boms[..i + 1]);
    }
    assert boms[..|boms|] == boms;
  }

  // ---- Maven's precedence, said on the POMs themselves ----

  datatype Project = Project(mgmt: map<string, seq<Node>>, chain: seq<string>, externalParent: Option<Gav>)

  /** Stated, interpolated and not a range. */
  predicate IsFixed(w: World, v: Option<string>) {
    match v
    case None => false
    case Some(s) => s != "" && !w.isRange(s) && !w.hasPlaceholder(s)
  }

  /** The i-th managed entry of the p-th POM of the chain. */
  predicate HasNode(pr: Project, p: nat, i: nat) {
    p < |pr.chain| && pr.chain[p] in pr.mgmt && i < |pr.mgmt[pr.chain[p]]|
  }

  function NodeAt(pr: Project, p: nat, i: nat): Node
    requires HasNode(pr, p, i)
  {
    pr.mgmt[pr.chain[p]][i]
  }

  predicate Manages(w: World, n: Node, k: string) {
    && n.groupId != "" && n.artifactId != "" && n.scope != Some(Named("import"))
    && n.groupId + ":" + n.artifactId == k && IsFixed(w, n.version)
  }

  /** An import that no scanned POM answers: an external BOM. */
  predicate Imports(w: World, n: Node, bom: Gav) {
    && n.groupId != "" && n.artifactId != "" && n.scope == Some(Named("import"))
    && !w.isLocal(n.groupId, n.artifactId, n.version) && IsFixed(w, n.version)
    && bom.groupId == n.groupId && bom.artifactId == n.artifactId && n.version == Some(bom.version)
  }

  predicate Offers(w: World, es: seq<Effective>, j: nat, k: string) {
    j < |es| && es[j].key == k && IsFixed(w, es[j].version)
  }

  function Outside(e: Effective, via: string, bom: Gav): Managed {
    Managed(e.version, e.scope, e.exclusions, Some((via, bom)))
  }

  predicate OwnEntry(w: World, pr: Project, k: string, p: nat, i: nat) {
    HasNode(pr, p, i) && Manages(w, NodeAt(pr, p, i), k)
  }

  ghost predicate BomEntry(w: World, pr: Project, k: string, p: nat, i: nat, bom: Gav, j: nat) {
    HasNode(pr, p, i) && Imports(w, NodeAt(pr, p, i), bom) && Offers(w, w.effectiveMgmt(bom), j, k)
  }

  predicate ParentEntry(w: World, pr: Project, k: string, imported: bool, j: nat) {
    pr.externalParent.Some?
    && var es := w.parentMgmt(pr.externalParent.value);
       Offers(w, es, j, k) && es[j].fromImport == imported
  }

  /** The first entry for the coordinate in the nearest POM of the chain that has one. */
  ghost predicate IsOwn(w: World, pr: Project, k: string, e: Managed) {
    exists p: nat, i: nat ::
      && OwnEntry(w, pr, k, p, i)
      && (forall q: nat, j: nat | OwnEntry(w, pr, k, q, j) :: p < q || (p == q && i <= j))
      && var n := NodeAt(pr, p, i); e == Managed(n.version, n.scope, n.exclusions, None)
  }

  /** The first entry of the external parent, explicit or imported there. */
  ghost predicate IsParents(w: World, pr: Project, k: string, imported: bool, e: Managed) {
    exists j: nat ::
      && ParentEntry(w, pr, k, imported, j)
      && (forall l: nat | ParentEntry(w, pr, k, imported, l) :: j <= l)
      && e == Outside(w.parentMgmt(pr.externalParent.value)[j], "parent", pr.externalParent.value)
  }

  /** The first entry of the first external BOM, in the order they are declared child first, that has one. */
  ghost predicate IsBoms(w: World, pr: Project, k: string, e: Managed) {
    exists p: nat, i: nat, bom, j: nat ::
      && BomEntry(w, pr, k, p, i, bom, j)
      && (forall q: nat, h: nat, other, l: nat | BomEntry(w, pr, k, q, h, other, l) :: p < q || (p == q && (i < h || (i == h && j <= l))))
      && e == Outside(w.effectiveMgmt(bom)[j], "bom", bom)
  }

  ghost predicate HasOwn(w: World, pr: Project, k: string) {
    exists p: nat, i: nat :: OwnEntry(w, pr, k, p, i)
  }

  ghost predicate HasParents(w: World, pr: Project, k: string, imported: bool) {
    exists j: nat :: ParentEntry(w, pr, k, imported, j)
  }

  ghost predicate HasBoms(w: World, pr: Project, k: string) {
    exists p: nat, i: nat, bom, j: nat :: BomEntry(w, pr, k, p, i, bom, j)
  }

  /** Own chain before external parent before external BOMs before what that parent imported; none when none has an entry. */
  ghost predicate IsManaged(w: World, pr: Project, k: string, e: Option<Managed>) {
    if HasOwn(w, pr, k) then e.Some? && IsOwn(w, pr, k, e.value)
    else if HasParents(w, pr, k, false) then e.Some? && IsParents(w, pr, k, false, e.value)
    else if HasBoms(w, pr, k) then e.Some? && IsBoms(w, pr, k, e.value)
    else if HasParents(w, pr, k, true) then e.Some? && IsParents(w, pr, k, true, e.value)
    else e.None?
  }

  // The POMs' entries one after another, and where each stands.

  function Start(pr: Project, p: nat): nat
    requires p <= |pr.chain|
  {
    |NodesOf(pr.mgmt, pr.chain[..p])|
  }

  lemma {:induction false} NodeStands(pr: Project, n: nat, p: nat, i: nat)
    requires p < n <= |pr.chain| && HasNode(pr, p, i)
    ensures Start(pr, p) + i < Start(pr, p + 1) <= Start(pr, n)
    ensures NodesOf(pr.mgmt, pr.chain[..n])[Start(pr, p) + i] == NodeAt(pr, p, i)
  {
    assert pr.chain[..n][..n - 1] == pr.chain[..n - 1];
    if n - 1 > p { NodeStands(pr, n - 1, p, i); }
  }

  lemma {:induction false} NodeComesFrom(pr: Project, n: nat, t: nat) returns (p: nat, i: nat)
    requires n <= |pr.chain| && t < |NodesOf(pr.mgmt, pr.chain[..n])|
    ensures p < n && HasNode(pr, p, i) && Start(pr, p) + i == t
  {
    assert pr.chain[..n][..n - 1] == pr.chain[..n - 1];
    if t < Start(pr, n - 1) {
      p, i := NodeComesFrom(pr, n - 1, t);
    } else {
      p, i := n - 1, t - Start(pr, n - 1);
    }
  }

  lemma {:induction false} StartsInOrder(pr: Project, p: nat, q: nat)
    requires p <= q <= |pr.chain|
    ensures Start(pr, p) <= Start(pr, q)
  {
    if p < q {
      assert pr.chain[..q][..q - 1] == pr.chain[..q - 1];
      StartsInOrder(pr, p, q - 1);
    }
  }

  /** Entries stand in the order of their POMs, and within one POM in the POM's own order. */
  lemma StandInOrder(pr: Project, p: nat, i: nat, q: nat, j: nat)
    requires HasNode(pr, p, i) && HasNode(pr, q, j)
    ensures Start(pr, p) + i <= Start(pr, q) + j <==> p < q || (p == q && i <= j)
  {
    hide NodesOf;
    NodeStands(pr, |pr.chain|, p, i);
    NodeStands(pr, |pr.chain|, q, j);
    if p < q { StartsInOrder(pr, p + 1, q); }
    if q < p { StartsInOrder(pr, q + 1, p); }
  }

  lemma FixedIsConcrete(w: World, v: Option<string>)
    ensures IsFixed(w, v) <==> Concrete(w, v)
  {
  }

  lemma FirstOfOne(w: World, ps: Pairs, k: string)
    requires |ps| <= 1
    ensures FirstOf(w, ps, k) == if ps != [] && ps[0].0 == k && Concrete(w, ps[0].1.version) then Some(ps[0].1) else None
  {
  }

  /** `t` is the first of the nodes that manages the coordinate. */
  predicate FirstManages(w: World, nodes: seq<Node>, k: string, t: nat) {
    t < |nodes| && Manages(w, nodes[t], k) && forall u | 0 <= u < t :: !Manages(w, nodes[u], k)
  }

  lemma {:induction false} FirstOwn(w: World, nodes: seq<Node>, k: string)
    ensures var first := FirstOf(w, Explicit(nodes), k);
            if first.None? then forall t | 0 <= t < |nodes| :: !Manages(w, nodes[t], k)
            else exists t: nat :: FirstManages(w, nodes, k, t) && first == FirstOf(w, ExplicitOf(nodes[t]), k)
  {
    hide Concrete, FirstOf, Manages, ExplicitOf;
    if nodes == [] {
      FirstOfOne(w, [], k);
    } else {
      var n, last, rest := |nodes| - 1, nodes[|nodes| - 1], nodes[..|nodes| - 1];
      FirstOwn(w, rest, k);
      FirstOfJoined(w, Explicit(rest), ExplicitOf(last), k);
      ExplicitManages(w, last, k);
      if t: nat :| FirstManages(w, rest, k, t) && FirstOf(w, Explicit(rest), k) == FirstOf(w, ExplicitOf(rest[t]), k) {
        assert nodes[t] == rest[t] && FirstManages(w, nodes, k, t);
      } else if Manages(w, last, k) {
        assert FirstManages(w, nodes, k, n);
      }
    }
  }

  lemma ExplicitManages(w: World, n: Node, k: string)
    ensures FirstOf(w, ExplicitOf(n), k) == if Manages(w, n, k) then Some(Managed(n.version, n.scope, n.exclusions, None)) else None
  {
    FirstOfOne(w, ExplicitOf(n), k);
    hide FirstOf;
  }

  /** `j` is the first entry that offers the coordinate, among those imported or not as asked; None asks for all. */
  predicate FirstOffers(w: World, es: seq<Effective>, k: string, asked: Option<bool>, j: nat) {
    j < |es| && Asked(w, es, k, asked, j) && forall l | 0 <= l < j :: !Asked(w, es, k, asked, l)
  }

  predicate Asked(w: World, es: seq<Effective>, k: string, asked: Option<bool>, j: nat) {
    Offers(w, es, j, k) && (asked.Some? ==> es[j].fromImport == asked.value)
  }

  function Outsides(es: seq<Effective>, via: string, bom: Gav, asked: Option<bool>): Pairs {
    if asked.None? then AllOf(es, via, bom) else FromExternal(es, via, bom, asked.value)
  }

  lemma {:induction false} FirstOutside(w: World, es: seq<Effective>, via: string, bom: Gav, asked: Option<bool>, k: string)
    ensures var first := FirstOf(w, Outsides(es, via, bom, asked), k);
            if first.None? then forall j: nat :: !Asked(w, es, k, asked, j)
            else exists j: nat :: FirstOffers(w, es, k, asked, j) && first == Some(Outside(es[j], via, bom))
  {
    hide FirstOf;
    if es == [] {
      FirstOfOne(w, [], k);
    } else {
      var n, last, rest := |es| - 1, es[|es| - 1], es[..|es| - 1];
      var piece: Pairs := if asked.None? || last.fromImport == asked.value then [PairOf(last, via, bom)] else [];
      FirstOutside(w, rest, via, bom, asked, k);
      FirstOfJoined(w, Outsides(rest, via, bom, asked), piece, k);
      FirstOfOne(w, piece, k);
      assert forall j: nat | j < n :: es[j] == rest[j];
      assert forall j: nat | j < n :: Asked(w, es, k, asked, j) <==> Asked(w, rest, k, asked, j);
      hide Concrete, IsFixed, Offers, Outsides;
      if j: nat :| FirstOffers(w, rest, k, asked, j) && FirstOf(w, Outsides(rest, via, bom, asked), k) == Some(Outside(rest[j], via, bom)) {
        assert FirstOffers(w, es, k, asked, j);
      } else if Asked(w, es, k, asked, n) {
        assert FirstOffers(w, es, k, asked, n);
      }
    }
  }

  predicate BomOffers(w: World, nodes: seq<Node>, k: string, t: nat, bom: Gav, j: nat) {
    t < |nodes| && j < |w.effectiveMgmt(bom)| && Imports(w, nodes[t], bom) && Offers(w, w.effectiveMgmt(bom), j, k)
  }

  ghost predicate FirstBomOffers(w: World, nodes: seq<Node>, k: string, t: nat, bom: Gav, j: nat) {
    BomOffers(w, nodes, k, t, bom, j) && forall u: nat, other, l: nat | BomOffers(w, nodes, k, u, other, l) :: t < u || (t == u && j <= l)
  }

  /** `first` is what the first of the nodes' BOMs that offers the coordinate offers first; None when none does. */
  ghost predicate BomsGive(w: World, nodes: seq<Node>, k: string, first: Option<Managed>) {
    if first.None? then forall t: nat, bom, j: nat :: !BomOffers(w, nodes, k, t, bom, j)
    else exists t: nat, bom, j: nat :: FirstBomOffers(w, nodes, k, t, bom, j) && first == Some(Outside(w.effectiveMgmt(bom)[j], "bom", bom))
  }

  lemma {:induction false} FirstBom(w: World, nodes: seq<Node>, k: string)
    ensures BomsGive(w, nodes, k, FirstOf(w, FromBoms(w, Boms(w, nodes)), k))
  {
    hide Concrete, FirstOf, FromBoms, BomsOf;
    NoBoms(w, k);
    if nodes != [] {
      hide BomsGive;
      var last, rest := nodes[|nodes| - 1], nodes[..|nodes| - 1];
      FirstBom(w, rest, k);
      BomsJoined(w, Boms(w, rest), last);
      FirstOfJoined(w, FromBoms(w, Boms(w, rest)), FromBoms(w, BomsOf(w, last)), k);
      OneBom(w, last, k);
      BomStep(w, rest, last, k, FirstOf(w, FromBoms(w, Boms(w, rest)), k), FirstOf(w, FromBoms(w, BomsOf(w, last)), k));
      assert nodes == rest + [last];
    }
  }

  lemma NoBoms(w: World, k: string)
    ensures BomsGive(w, [], k, FirstOf(w, FromBoms(w, []), k))
  {
  }

  /** What the BOM that one node imports, if it does, offers first. */
  ghost predicate OneGives(w: World, n: Node, k: string, first: Option<Managed>) {
    && (forall bom, other | Imports(w, n, bom) && Imports(w, n, other) :: bom == other)
    && if first.None? then forall bom, j: nat | Imports(w, n, bom) :: !Offers(w, w.effectiveMgmt(bom), j, k)
       else exists bom, j: nat :: Imports(w, n, bom) && FirstOffers(w, w.effectiveMgmt(bom), k, None, j)
                                  && first == Some(Outside(w.effectiveMgmt(bom)[j], "bom", bom))
  }

  lemma BomStep(w: World, rest: seq<Node>, last: Node, k: string, before: Option<Managed>, more: Option<Managed>)
    requires BomsGive(w, rest, k, before) && OneGives(w, last, k, more)
    ensures BomsGive(w, rest + [last], k, if before.Some? then before else more)
  {
    hide Imports, Offers, Outside;
    var n, nodes := |rest|, rest + [last];
    assert forall t: nat, bom, j: nat | t < n :: BomOffers(w, nodes, k, t, bom, j) <==> BomOffers(w, rest, k, t, bom, j);
    if before.Some? {
      var t: nat, bom, j: nat :| FirstBomOffers(w, rest, k, t, bom, j) && before == Some(Outside(w.effectiveMgmt(bom)[j], "bom", bom));
      assert FirstBomOffers(w, nodes, k, t, bom, j);
    } else if more.Some? {
      var bom, j: nat :| Imports(w, last, bom) && FirstOffers(w, w.effectiveMgmt(bom), k, None, j)
                         && more == Some(Outside(w.effectiveMgmt(bom)[j], "bom", bom));
      assert forall l: nat :: Asked(w, w.effectiveMgmt(bom), k, None, l) <==> Offers(w, w.effectiveMgmt(bom), l, k);
      assert forall other, l: nat | BomOffers(w, nodes, k, n, other, l) :: other == bom && j <= l;
      assert FirstBomOffers(w, nodes, k, n, bom, j);
    }
  }

  lemma BomsJoined(w: World, boms: seq<Gav>, n: Node)
    ensures FromBoms(w, boms + BomsOf(w, n)) == FromBoms(w, boms) + FromBoms(w, BomsOf(w, n))
  {
    hide Concrete, AllOf;
    var more := BomsOf(w, n);
    if more == [] {
      assert boms + more == boms;
    } else {
      assert (boms + more)[..|boms|] == boms && more[..0] == [];
    }
  }

  lemma OneBom(w: World, n: Node, k: string)
    ensures OneGives(w, n, k, FirstOf(w, FromBoms(w, BomsOf(w, n)), k))
  {
    hide FirstOf;
    FirstOfOne(w, [], k);
    FixedIsConcrete(w, n.version);
    hide Concrete, IsFixed, Offers, AllOf, Outside;
    if bom :| Imports(w, n, bom) {
      assert BomsOf(w, n) == [bom] && [bom][..0] == [];
      assert FromBoms(w, [bom]) == AllOf(w.effectiveMgmt(bom), "bom", bom);
      FirstOutside(w, w.effectiveMgmt(bom), "bom", bom, None, k);
      assert forall j: nat :: Asked(w, w.effectiveMgmt(bom), k, None, j) <==> Offers(w, w.effectiveMgmt(bom), j, k);
    } else {
      BomImported(w, n);
    }
  }

  lemma BomImported(w: World, n: Node)
    ensures BomsOf(w, n) != [] ==> Imports(w, n, BomsOf(w, n)[0])
  {
    FixedIsConcrete(w, n.version);
    hide IsFixed;
  }

  lemma OwnSays(w: World, pr: Project, k: string)
    ensures var first := FirstOf(w, Explicit(NodesOf(pr.mgmt, pr.chain)), k);
            if first.None? then !HasOwn(w, pr, k) else HasOwn(w, pr, k) && IsOwn(w, pr, k, first.value)
  {
    hide FirstOf, Manages, NodesOf, Explicit, ExplicitOf;
    var nodes := NodesOf(pr.mgmt, pr.chain);
    assert pr.chain[..|pr.chain|] == pr.chain;
    FirstOwn(w, nodes, k);
    forall p: nat, i: nat | HasNode(pr, p, i) ensures Start(pr, p) + i < |nodes| && nodes[Start(pr, p) + i] == NodeAt(pr, p, i) {
      NodeStands(pr, |pr.chain|, p, i);
    }
    if t: nat :| FirstManages(w, nodes, k, t) && FirstOf(w, Explicit(nodes), k) == FirstOf(w, ExplicitOf(nodes[t]), k) {
      ExplicitManages(w, nodes[t], k);
      var p, i := NodeComesFrom(pr, |pr.chain|, t);
      assert OwnEntry(w, pr, k, p, i);
      forall q: nat, j: nat | OwnEntry(w, pr, k, q, j) ensures p < q || (p == q && i <= j) { StandInOrder(pr, p, i, q, j); }
    }
  }

  lemma BomsSay(w: World, pr: Project, k: string)
    ensures var first := FirstOf(w, FromBoms(w, Boms(w, NodesOf(pr.mgmt, pr.chain))), k);
            if first.None? then !HasBoms(w, pr, k) else HasBoms(w, pr, k) && IsBoms(w, pr, k, first.value)
  {
    hide FirstOf, Imports, NodesOf, FromBoms, Boms;
    var nodes := NodesOf(pr.mgmt, pr.chain);
    assert pr.chain[..|pr.chain|] == pr.chain;
    FirstBom(w, nodes, k);
    forall p: nat, i: nat | HasNode(pr, p, i) ensures Start(pr, p) + i < |nodes| && nodes[Start(pr, p) + i] == NodeAt(pr, p, i) {
      NodeStands(pr, |pr.chain|, p, i);
    }
    forall q: nat, h: nat, bom, l: nat | BomEntry(w, pr, k, q, h, bom, l) ensures BomOffers(w, nodes, k, Start(pr, q) + h, bom, l) { }
    if t: nat, bom, j: nat :| FirstBomOffers(w, nodes, k, t, bom, j)
                              && FirstOf(w, FromBoms(w, Boms(w, nodes)), k) == Some(Outside(w.effectiveMgmt(bom)[j], "bom", bom)) {
      var p, i := NodeComesFrom(pr, |pr.chain|, t);
      assert BomEntry(w, pr, k, p, i, bom, j);
      forall q: nat, h: nat, other, l: nat | BomEntry(w, pr, k, q, h, other, l) ensures p < q || (p == q && (i < h || (i == h && j <= l))) {
        assert BomOffers(w, nodes, k, Start(pr, q) + h, other, l);
        StandInOrder(pr, p, i, q, h);
      }
    }
  }

  lemma ParentsSay(w: World, pr: Project, imported: bool, k: string)
    requires pr.externalParent.Some?
    ensures var first := FirstOf(w, FromExternal(w.parentMgmt(pr.externalParent.value), "parent", pr.externalParent.value, imported), k);
            if first.None? then !HasParents(w, pr, k, imported) else HasParents(w, pr, k, imported) && IsParents(w, pr, k, imported, first.value)
  {
    hide FirstOf, Offers, FromExternal;
    var parent := pr.externalParent.value;
    var es := w.parentMgmt(parent);
    FirstOutside(w, es, "parent", parent, Some(imported), k);
    assert forall j: nat :: ParentEntry(w, pr, k, imported, j) <==> Asked(w, es, k, Some(imported), j);
    if j: nat :| FirstOffers(w, es, k, Some(imported), j)
                 && FirstOf(w, FromExternal(es, "parent", parent, imported), k) == Some(Outside(es[j], "parent", parent)) {
      assert ParentEntry(w, pr, k, imported, j);
    }
  }

  lemma NoParents(w: World, pr: Project, k: string)
    requires pr.externalParent.None?
    ensures !HasParents(w, pr, k, false) && !HasParents(w, pr, k, true)
  {
  }

  lemma SourcesSay(w: World, pr: Project, k: string)
    ensures IsManaged(w, pr, k, FirstOf(w, Sources(w, pr.mgmt, pr.chain, pr.externalParent), k))
  {
    hide FirstOf, FromExternal, FromBoms, Explicit, Boms, NodesOf, HasOwn, HasBoms, IsOwn, IsBoms, IsParents, ParentEntry;
    OwnSays(w, pr, k);
    BomsSay(w, pr, k);
    var nodes := NodesOf(pr.mgmt, pr.chain);
    var own, boms := Explicit(nodes), FromBoms(w, Boms(w, nodes));
    var stated: Pairs, imported: Pairs := [], [];
    FirstOfOne(w, [], k);
    if pr.externalParent.Some? {
      var es := w.parentMgmt(pr.externalParent.value);
      stated, imported := FromExternal(es, "parent", pr.externalParent.value, false), FromExternal(es, "parent", pr.externalParent.value, true);
      ParentsSay(w, pr, false, k);
      ParentsSay(w, pr, true, k);
    } else {
      NoParents(w, pr, k);
    }
    FirstOfJoined(w, own, stated, k);
    FirstOfJoined(w, own + stated, boms, k);
    FirstOfJoined(w, own + stated + boms, imported, k);
  }

  /** The coordinate of every entry is mapped to what Maven's precedence gives it, and nothing else is mapped. */
  ghost predicate IsManagement(w: World, pr: Project, out: map<string, Managed>) {
    "" !in out && forall k | k != "" :: IsManaged(w, pr, k, Lookup(out, k))
  }

  method ModuleManagement(w: World, mgmt: map<string, seq<Node>>, chain: seq<string>, externalParent: Option<Gav>)
    returns (out: map<string, Managed>)
    ensures IsManagement(w, Project(mgmt, chain, externalParent), out)
  {
    hide *;
    var nodes := NodesOf(mgmt, chain);
    var own := Explicit(nodes);
    NothingSet(w);
    out := SetAll(w, map[], [], own);
    assert [] + own == own;
    var imported: Pairs, parents: Pairs := [], [];
    if externalParent.Some? {
      var es := w.parentMgmt(externalParent.value);
      imported := FromExternal(es, "parent", externalParent.value, true);
      parents := FromExternal(es, "parent", externalParent.value, false);
    }
    out := SetAll(w, out, own, parents);
    out := SetBoms(w, out, own + parents, Boms(w, nodes));
    out := SetAll(w, out, own + parents + FromBoms(w, Boms(w, nodes)), imported);
    SourcesAre(w, mgmt, chain, externalParent, own, parents, imported);
    WinsIsManagement(w, Project(mgmt, chain, externalParent), out);
  }

  lemma NothingSet(w: World)
    ensures FirstWins(w, map[], [])
  {
  }

  lemma SourcesAre(w: World, mgmt: map<string, seq<Node>>, chain: seq<string>, externalParent: Option<Gav>, own: Pairs, parents: Pairs, imported: Pairs)
    requires own == Explicit(NodesOf(mgmt, chain))
    requires if externalParent.None? then parents == imported == []
             else
               && parents == FromExternal(w.parentMgmt(externalParent.value), "parent", externalParent.value, false)
               && imported == FromExternal(w.parentMgmt(externalParent.value), "parent", externalParent.value, true)
    ensures Sources(w, mgmt, chain, externalParent) == own + parents + FromBoms(w, Boms(w, NodesOf(mgmt, chain))) + imported
  {
    hide FromExternal, FromBoms, Boms, NodesOf, Explicit;
  }

  lemma WinsIsManagement(w: World, pr: Project, out: map<string, Managed>)
    requires FirstWins(w, out, Sources(w, pr.mgmt, pr.chain, pr.externalParent))
    ensures IsManagement(w, pr, out)
  {
    hide IsManaged, FirstOf, Sources;
    forall k | k != "" ensures IsManaged(w, pr, k, Lookup(out, k)) { SourcesSay(w, pr, k); }
  }

  // ---- What a module depends on ----

  datatype Dep = Dep(groupId: string, artifactId: string, version: Option<string>, scope: Option<Scope>,
                     exclusions: seq<string>, optional: bool, declaredIn: string)

  datatype Held = Held(direct: Direct, exclusions: seq<string>, source: Option<(string, Gav)>, optional: bool)

  datatype Options = Options(excludes: string -> bool, includeTests: bool)

  function KeyOfDep(d: Dep): string {
    Key(d.groupId, d.artifactId)
  }

  /** Not excluded from the scan, and its coordinate fully interpolated. */
  predicate Considered(w: World, o: Options, d: Dep) {
    !o.excludes(d.groupId) && !w.hasPlaceholder(KeyOfDep(d))
  }

  /** The nearest declaration of its coordinate: all later ones are overridden, whatever becomes of it. */
  predicate IsNearest(w: World, o: Options, ds: seq<Dep>, i: nat) {
    i < |ds| && Considered(w, o, ds[i]) && forall j | 0 <= j < i :: !Considered(w, o, ds[j]) || KeyOfDep(ds[j]) != KeyOfDep(ds[i])
  }

  /** Its own version if it states one, else the managed one; a range becomes what it resolves to. */
  function VersionOfDep(w: World, m: Option<Managed>, d: Dep): Option<string> {
    var isRange := d.version.Some? && w.isRange(d.version.value);
    var v := if Concrete(w, d.version) || isRange then d.version else if m.Some? then m.value.version else None;
    var resolved := if v.Some? && w.isRange(v.value) then w.resolveRange(KeyOfDep(d), v.value) else v;
    if Concrete(w, resolved) then resolved else None
  }

  function SourceOfDep(w: World, m: Option<Managed>, d: Dep): Option<(string, Gav)> {
    if Concrete(w, d.version) || (d.version.Some? && w.isRange(d.version.value)) || m.None? then None else m.value.source
  }

  function ScopeOfDep(m: Option<Managed>, d: Dep): Scope {
    if d.scope.Some? then d.scope.value else if m.Some? && m.value.scope.Some? then m.value.scope.value else Compile
  }

  predicate Ships(o: Options, s: Scope) {
    s != Named("system") && s != Named("import") && (s == Test ==> o.includeTests)
  }

  function HeldAs(w: World, mgmt: map<string, Managed>, d: Dep): Held {
    var m := Lookup(mgmt, KeyOfDep(d));
    Held(Direct(KeyOfDep(d), VersionOfDep(w, m, d), ScopeOfDep(m, d), d.declaredIn),
         d.exclusions + if m.Some? then m.value.exclusions else [], SourceOfDep(w, m, d), d.optional)
  }

  /** The i-th declaration is its coordinate's nearest one, and the coordinate `key`. */
  predicate NearestOf(w: World, o: Options, ds: seq<Dep>, i: nat, key: string) {
    IsNearest(w, o, ds, i) && KeyOfDep(ds[i]) == key
  }

  /** Exactly the nearest declarations that ship, in their order. */
  ghost predicate HoldsNearest(w: World, o: Options, mgmt: map<string, Managed>, ds: seq<Dep>, out: seq<Held>) {
    && (forall h :: h in out <==> exists i: nat :: IsNearest(w, o, ds, i) && Ships(o, HeldAs(w, mgmt, ds[i]).direct.scope) && h == HeldAs(w, mgmt, ds[i]))
    && (forall a, b, i: nat, j: nat | 0 <= a < b < |out| && NearestOf(w, o, ds, i, out[a].direct.key) && NearestOf(w, o, ds, j, out[b].direct.key) :: i < j)
  }

  predicate IsSeen(w: World, o: Options, ds: seq<Dep>, n: nat, k: string)
    requires n <= |ds|
  {
    exists j :: 0 <= j < n && Considered(w, o, ds[j]) && KeyOfDep(ds[j]) == k
  }

  lemma SeenMore(w: World, o: Options, ds: seq<Dep>, n: nat)
    requires n < |ds|
    ensures forall k :: IsSeen(w, o, ds, n + 1, k) <==> IsSeen(w, o, ds, n, k) || (Considered(w, o, ds[n]) && KeyOfDep(ds[n]) == k)
  {
    hide Considered, KeyOfDep;
    forall k ensures IsSeen(w, o, ds, n + 1, k) <==> IsSeen(w, o, ds, n, k) || (Considered(w, o, ds[n]) && KeyOfDep(ds[n]) == k) {
      if j :| 0 <= j < n + 1 && Considered(w, o, ds[j]) && KeyOfDep(ds[j]) == k {
        assert j == n || IsSeen(w, o, ds, n, k);
      }
    }
  }

  /** `ds` is the chain's declarations, child first, then those the external parent hands down. */
  method ModuleDirects(w: World, o: Options, mgmt: map<string, Managed>, ds: seq<Dep>) returns (out: seq<Held>)
    ensures HoldsNearest(w, o, mgmt, ds, out)
  {
    out := [];
    var seen: set<string> := {};
    NoneHeld(w, o, mgmt, ds);
    for n := 0 to |ds|
      invariant HoldsNearest(w, o, mgmt, ds[..n], out)
      invariant forall k :: k in seen <==> IsSeen(w, o, ds, n, k)
    {
      hide *;
      var d := ds[n];
      var key := KeyOfDep(d);
      HeldMore(w, o, mgmt, ds, n, out);
      SeenMore(w, o, ds, n);
      if !Considered(w, o, d) || key in seen { continue; }
      seen := seen + {key};
      var h := HeldAs(w, mgmt, d);
      if Ships(o, h.direct.scope) { out := out + [h]; }
    }
    assert ds[..|ds|] == ds;
  }

  lemma NoneHeld(w: World, o: Options, mgmt: map<string, Managed>, ds: seq<Dep>)
    ensures HoldsNearest(w, o, mgmt, ds[..0], [])
  {
  }

  lemma HeldMore(w: World, o: Options, mgmt: map<string, Managed>, ds: seq<Dep>, n: nat, out: seq<Held>)
    requires n < |ds| && HoldsNearest(w, o, mgmt, ds[..n], out)
    ensures var d, h := ds[n], HeldAs(w, mgmt, ds[n]);
            var nearest := Considered(w, o, d) && !IsSeen(w, o, ds, n, KeyOfDep(d));
            HoldsNearest(w, o, mgmt, ds[..n + 1], if nearest && Ships(o, h.direct.scope) then out + [h] else out)
  {
    var before, after := ds[..n], ds[..n + 1];
    assert after == before + [ds[n]];
    NearestMore(w, o, ds, n, before, after);
    var h := HeldAs(w, mgmt, ds[n]);
    HeldKey(w, mgmt, ds[n]);
    OneNearest(w, o, after);
    hide Considered, HeldAs, Ships, IsNearest, IsSeen;
    if IsNearest(w, o, after, n) {
      forall x | x in out ensures x.direct.key != KeyOfDep(ds[n]) {
        var i: nat :| i < n && IsNearest(w, o, before, i) && x == HeldAs(w, mgmt, before[i]);
        HeldKey(w, mgmt, before[i]);
      }
    }
    forall a, i: nat | 0 <= a < |out| && NearestOf(w, o, after, i, out[a].direct.key) ensures i < n && NearestOf(w, o, before, i, out[a].direct.key) {
      assert out[a] in out;
    }
  }

  lemma OneNearest(w: World, o: Options, ds: seq<Dep>)
    ensures forall i: nat, j: nat, k | NearestOf(w, o, ds, i, k) && NearestOf(w, o, ds, j, k) :: i == j
  {
    hide Considered, KeyOfDep;
  }

  /** One more declaration changes nothing about the earlier ones. */
  lemma NearestMore(w: World, o: Options, ds: seq<Dep>, n: nat, before: seq<Dep>, after: seq<Dep>)
    requires n < |ds| && before == ds[..n] && after == ds[..n + 1]
    ensures forall i: nat :: IsNearest(w, o, before, i) ==>
              i < n && before[i] == after[i] && (KeyOfDep(before[i]) == KeyOfDep(ds[n]) ==> IsSeen(w, o, ds, n, KeyOfDep(ds[n])))
    ensures forall i: nat :: IsNearest(w, o, after, i) <==> IsNearest(w, o, before, i) || (i == n && IsNearest(w, o, after, n))
    ensures IsNearest(w, o, after, n) <==> Considered(w, o, ds[n]) && !IsSeen(w, o, ds, n, KeyOfDep(ds[n]))
  {
    hide Considered, KeyOfDep;
    assert forall j | 0 <= j < n :: after[j] == ds[j] && before[j] == ds[j];
    assert after[n] == ds[n];
  }

  lemma HeldKey(w: World, mgmt: map<string, Managed>, d: Dep)
    ensures HeldAs(w, mgmt, d).direct.key == KeyOfDep(d)
  {
  }

  // ---- What a module holds, said on its declarations and POMs ----

  predicate IsRange(w: World, d: Dep) {
    d.version.Some? && w.isRange(d.version.value)
  }

  /** The dependency states neither a version nor a range, so the management decides. */
  predicate LeavesOpen(w: World, d: Dep) {
    !IsFixed(w, d.version) && !IsRange(w, d)
  }

  /** Its own version, or what its own range resolves to, if that is a version. */
  function OwnVersion(w: World, d: Dep): Option<string> {
    var v := if IsRange(w, d) then w.resolveRange(d.groupId + ":" + d.artifactId, d.version.value) else d.version;
    if IsFixed(w, v) then v else None
  }

  /** How a declaration is held whose coordinate the POMs manage as `e`. */
  predicate HeldBy(w: World, d: Dep, e: Option<Managed>, h: Held) {
    && h.direct.key == d.groupId + ":" + d.artifactId && h.direct.declaredIn == d.declaredIn && h.optional == d.optional
    && h.direct.version == (if !LeavesOpen(w, d) then OwnVersion(w, d) else if e.Some? then e.value.version else None)
    && h.source == (if LeavesOpen(w, d) && e.Some? then e.value.source else None)
    && h.direct.scope == (if d.scope.Some? then d.scope.value else if e.Some? && e.value.scope.Some? then e.value.scope.value else Compile)
    && h.exclusions == (if e.Some? then d.exclusions + e.value.exclusions else d.exclusions)
  }

  predicate IsScanned(w: World, o: Options, d: Dep) {
    !o.excludes(d.groupId) && !w.hasPlaceholder(d.groupId + ":" + d.artifactId)
  }

  /** The first scanned declaration of its coordinate. */
  predicate IsDeclared(w: World, o: Options, ds: seq<Dep>, n: nat) {
    n < |ds| && IsScanned(w, o, ds[n])
    && forall j | 0 <= j < n && IsScanned(w, o, ds[j]) :: ds[j].groupId + ":" + ds[j].artifactId != ds[n].groupId + ":" + ds[n].artifactId
  }

  predicate IsShipped(o: Options, s: Scope) {
    match s
    case Test => o.includeTests
    case Named(name) => name != "system" && name != "import"
    case _ => true
  }

  ghost predicate HeldFrom(w: World, pr: Project, d: Dep, h: Held) {
    exists e :: IsManaged(w, pr, d.groupId + ":" + d.artifactId, e) && HeldBy(w, d, e, h)
  }

  ghost predicate HeldAt(w: World, o: Options, pr: Project, ds: seq<Dep>, n: nat, h: Held) {
    IsDeclared(w, o, ds, n) && HeldFrom(w, pr, ds[n], h)
  }

  /** Every first declaration is held as its POMs manage it if that ships, nothing else is, and in the order of declaration. */
  ghost predicate Resolved(w: World, o: Options, pr: Project, ds: seq<Dep>, out: seq<Held>) {
    && (forall h | h in out :: IsShipped(o, h.direct.scope) && exists n: nat :: HeldAt(w, o, pr, ds, n, h))
    && (forall n: nat | IsDeclared(w, o, ds, n) :: exists h :: HeldFrom(w, pr, ds[n], h) && (IsShipped(o, h.direct.scope) ==> h in out))
    && (forall a, b, n: nat, m: nat | 0 <= a < b < |out| && HeldAt(w, o, pr, ds, n, out[a]) && HeldAt(w, o, pr, ds, m, out[b]) :: n < m)
  }

  lemma HeldAsIsHeldBy(w: World, mgmt: map<string, Managed>, d: Dep)
    requires forall k | k in mgmt :: Concrete(w, mgmt[k].version)
    ensures HeldBy(w, d, Lookup(mgmt, d.groupId + ":" + d.artifactId), HeldAs(w, mgmt, d))
  {
    var m := Lookup(mgmt, KeyOfDep(d));
    FixedIsConcrete(w, d.version);
    if m.Some? { FixedIsConcrete(w, m.value.version); }
    if IsRange(w, d) { FixedIsConcrete(w, w.resolveRange(KeyOfDep(d), d.version.value)); }
    assert d.exclusions + [] == d.exclusions;
  }

  lemma ManagedIsFixed(w: World, pr: Project, k: string, e: Managed)
    requires IsManaged(w, pr, k, Some(e))
    ensures Concrete(w, e.version)
  {
    FixedIsConcrete(w, e.version);
    hide Concrete, IsFixed;
  }

  lemma HeldFromManagement(w: World, pr: Project, mgmt: map<string, Managed>, d: Dep)
    requires IsManagement(w, pr, mgmt)
    ensures HeldFrom(w, pr, d, HeldAs(w, mgmt, d))
  {
    hide IsManaged, HeldBy, HeldAs, Concrete;
    forall k | k in mgmt ensures Concrete(w, mgmt[k].version) {
      assert IsManaged(w, pr, k, Lookup(mgmt, k));
      ManagedIsFixed(w, pr, k, mgmt[k]);
    }
    HeldAsIsHeldBy(w, mgmt, d);
    var k := d.groupId + ":" + d.artifactId;
    assert ':' in k && k != "";
  }

  lemma NearestIsDeclared(w: World, o: Options, ds: seq<Dep>, n: nat)
    ensures IsNearest(w, o, ds, n) <==> IsDeclared(w, o, ds, n)
    ensures IsDeclared(w, o, ds, n) ==> n < |ds|
  {
  }

  lemma ShipsIsShipped(o: Options, s: Scope)
    ensures Ships(o, s) <==> IsShipped(o, s)
  {
  }

  lemma HeldIsResolved(w: World, o: Options, mgmt: map<string, Managed>, pr: Project, ds: seq<Dep>, out: seq<Held>)
    requires IsManagement(w, pr, mgmt) && HoldsNearest(w, o, mgmt, ds, out)
    ensures Resolved(w, o, pr, ds, out)
  {
    hide IsManagement, Ships, IsShipped, HeldAs, HeldFrom, IsNearest, IsDeclared;
    forall n: nat ensures IsNearest(w, o, ds, n) <==> IsDeclared(w, o, ds, n) ensures IsDeclared(w, o, ds, n) ==> n < |ds| { NearestIsDeclared(w, o, ds, n); }
    forall s ensures Ships(o, s) <==> IsShipped(o, s) { ShipsIsShipped(o, s); }
    forall d ensures HeldFrom(w, pr, d, HeldAs(w, mgmt, d)) { HeldFromManagement(w, pr, mgmt, d); }
    forall h | h in out ensures exists n: nat :: HeldAt(w, o, pr, ds, n, h) {
      var n: nat :| n < |ds| && IsNearest(w, o, ds, n) && Ships(o, HeldAs(w, mgmt, ds[n]).direct.scope) && h == HeldAs(w, mgmt, ds[n]);
      assert HeldAt(w, o, pr, ds, n, h);
    }
    forall n: nat | n < |ds| && IsDeclared(w, o, ds, n) ensures exists h :: HeldFrom(w, pr, ds[n], h) && (IsShipped(o, h.direct.scope) ==> h in out) {
      var h := HeldAs(w, mgmt, ds[n]);
      assert HeldFrom(w, pr, ds[n], h);
    }
    forall h, n: nat | HeldAt(w, o, pr, ds, n, h) ensures NearestOf(w, o, ds, n, h.direct.key) {
      HeldHasKey(w, pr, ds[n], h);
    }
  }

  lemma HeldHasKey(w: World, pr: Project, d: Dep, h: Held)
    requires HeldFrom(w, pr, d, h)
    ensures h.direct.key == KeyOfDep(d)
  {
  }

  /**
   * lib/maven-reactor.js:192-196: what the module holds, from its declarations and the POMs that
   * manage them: each scanned coordinate's first declaration, at its own version or resolved range,
   * else at the version the nearest POM, the external parent or an external BOM manages it at.
   */
  method ResolveModule(w: World, o: Options, mgmt: map<string, seq<Node>>, chain: seq<string>, externalParent: Option<Gav>, ds: seq<Dep>)
    returns (out: seq<Held>)
    ensures Resolved(w, o, Project(mgmt, chain, externalParent), ds, out)
  {
    hide *;
    var managed := ModuleManagement(w, mgmt, chain, externalParent);
    out := ModuleDirects(w, o, managed, ds);
    HeldIsResolved(w, o, managed, Project(mgmt, chain, externalParent), ds, out);
  }
}
