/** What the evaluation of lib/cpe.js:130-188, 201-242 and 261-319 promises. */
module CpeLaws {
  import opened Basics
  import opened Orders
  import opened CpeMatch

  // ---- Context ----

  /** A platform node: no vulnerable CPE at any depth. */
  predicate IsContext(n: Node) {
    n.Node? && ContextOnly(n)
  }

  /** The platform nodes taken out at every depth. */
  function StripAll(ns: seq<Node>): seq<Node>
    decreases ns
  {
    if ns == [] then []
    else if IsContext(ns[0]) then StripAll(ns[1..])
    else [if ns[0].Null? then Null else Node(ns[0].matches, StripAll(ns[0].children))] + StripAll(ns[1..])
  }

  function Strip(n: Node): Node {
    if n.Null? then Null else Node(n.matches, StripAll(n.children))
  }

  ghost predicate IsStripped(ns: seq<Node>, x: Node) {
    exists n :: n in ns && !IsContext(n) && x == Strip(n)
  }

  lemma {:induction false} StripAllHas(ns: seq<Node>)
    ensures forall x :: x in StripAll(ns) <==> IsStripped(ns, x)
  {
    hide IsContext;
    if ns != [] {
      StripAllHas(ns[1..]);
      forall x ensures x in StripAll(ns) <==> IsStripped(ns, x) {
        assert forall n :: n in ns <==> n == ns[0] || n in ns[1..];
      }
    }
  }

  /** Stripping a node's inside changes neither whether it affects nor whether it is a platform node. */
  lemma {:induction false} StripKeeps(w: World, n: Node, dep: Dep, curatedOnly: bool)
    ensures NodeAffects(w, Strip(n), dep, curatedOnly) <==> NodeAffects(w, n, dep, curatedOnly)
    ensures ContextOnly(Strip(n)) <==> ContextOnly(n)
    ensures TopHit(w, Strip(n), dep, curatedOnly) <==> TopHit(w, n, dep, curatedOnly)
    ensures CuratedHit(w, Strip(n), dep, curatedOnly) <==> CuratedHit(w, n, dep, curatedOnly)
  {
    if n.Node? {
      var kids, kept := n.children, StripAll(n.children);
      StripAllHas(kids);
      forall i | 0 <= i < |kids|
        ensures NodeAffects(w, Strip(kids[i]), dep, curatedOnly) <==> NodeAffects(w, kids[i], dep, curatedOnly)
        ensures ContextOnly(Strip(kids[i])) <==> ContextOnly(kids[i])
      {
        StripKeeps(w, kids[i], dep, curatedOnly);
      }
      KidsKeep(w, kids, kept, dep, curatedOnly);
    }
  }

  /** What a node asks of its children is the same of the stripped ones. */
  lemma KidsKeep(w: World, kids: seq<Node>, kept: seq<Node>, dep: Dep, curatedOnly: bool)
    requires forall x :: x in kept <==> IsStripped(kids, x)
    requires forall i | 0 <= i < |kids| ::
               && (NodeAffects(w, Strip(kids[i]), dep, curatedOnly) <==> NodeAffects(w, kids[i], dep, curatedOnly))
               && (ContextOnly(Strip(kids[i])) <==> ContextOnly(kids[i]))
    ensures (exists i :: 0 <= i < |kept| && NodeAffects(w, kept[i], dep, curatedOnly)) <==>
            (exists i :: 0 <= i < |kids| && NodeAffects(w, kids[i], dep, curatedOnly))
    ensures (forall i :: 0 <= i < |kept| ==> ContextOnly(kept[i])) <==> (forall i :: 0 <= i < |kids| ==> ContextOnly(kids[i]))
  {
    hide Strip, NodeAffects, ContextOnly;
    forall i | 0 <= i < |kept| ensures exists k :: 0 <= k < |kids| && !IsContext(kids[k]) && kept[i] == Strip(kids[k]) {
      assert IsStripped(kids, kept[i]);
      var n :| n in kids && !IsContext(n) && kept[i] == Strip(n);
      var k :| 0 <= k < |kids| && kids[k] == n;
    }
    forall k | 0 <= k < |kids| && !IsContext(kids[k]) ensures exists i :: 0 <= i < |kept| && kept[i] == Strip(kids[k]) {
      assert IsStripped(kids, Strip(kids[k]));
    }
    forall k | 0 <= k < |kids| && IsContext(kids[k]) ensures !NodeAffects(w, kids[k], dep, curatedOnly) {
      ContextNeverAffects(w, kids[k], dep, curatedOnly);
    }
    forall k | 0 <= k < |kids| && !ContextOnly(kids[k]) ensures !IsContext(kids[k]) { }
  }

  function Bare(c: Config): Config {
    c.(nodes := StripAll(c.nodes))
  }

  function BareCve(cve: Cve): Cve {
    cve.(configs := seq(|cve.configs|, i requires 0 <= i < |cve.configs| => Bare(cve.configs[i])))
  }

  /** What the evaluation asks of a configuration, by membership alone. */
  lemma ByMembership(w: World, c: Config, dep: Dep, curatedOnly: bool)
    ensures Passes(w, c, dep, curatedOnly) <==>
              if c.isAnd then (exists n :: n in c.nodes && !ContextOnly(n)) && (forall n | n in c.nodes && !ContextOnly(n) :: NodeAffects(w, n, dep, curatedOnly))
              else exists n :: n in c.nodes && NodeAffects(w, n, dep, curatedOnly)
    ensures (exists i :: 0 <= i < |c.nodes| && TopHit(w, c.nodes[i], dep, curatedOnly)) <==> exists n :: n in c.nodes && TopHit(w, n, dep, curatedOnly)
    ensures (exists i :: 0 <= i < |c.nodes| && CuratedHit(w, c.nodes[i], dep, curatedOnly)) <==> exists n :: n in c.nodes && CuratedHit(w, n, dep, curatedOnly)
  {
    hide NodeAffects, ContextOnly, TopHit, CuratedHit;
    forall n | n in c.nodes && !ContextOnly(n) ensures exists i :: 0 <= i < |c.nodes| && c.nodes[i] == n && !ContextOnly(c.nodes[i]) {
    }
    forall i | 0 <= i < |c.nodes| ensures c.nodes[i] in c.nodes {
    }
  }

  lemma ContextHasNoHit(w: World, n: Node, dep: Dep, curatedOnly: bool)
    requires ContextOnly(n)
    ensures !NodeAffects(w, n, dep, curatedOnly) && !TopHit(w, n, dep, curatedOnly) && !CuratedHit(w, n, dep, curatedOnly)
  {
    ContextNeverAffects(w, n, dep, curatedOnly);
  }

  /** What is asked of a platform node, and of any other once stripped. */
  ghost predicate StripFacts(w: World, n: Node, dep: Dep, curatedOnly: bool) {
    && (NodeAffects(w, Strip(n), dep, curatedOnly) <==> NodeAffects(w, n, dep, curatedOnly))
    && (ContextOnly(Strip(n)) <==> ContextOnly(n))
    && (TopHit(w, Strip(n), dep, curatedOnly) <==> TopHit(w, n, dep, curatedOnly))
    && (CuratedHit(w, Strip(n), dep, curatedOnly) <==> CuratedHit(w, n, dep, curatedOnly))
    && (IsContext(n) ==> ContextOnly(n) && !NodeAffects(w, n, dep, curatedOnly) && !TopHit(w, n, dep, curatedOnly) && !CuratedHit(w, n, dep, curatedOnly))
  }

  lemma EachStripped(w: World, ns: seq<Node>, dep: Dep, curatedOnly: bool)
    ensures forall n | n in ns :: StripFacts(w, n, dep, curatedOnly)
    ensures forall n | n in ns && !IsContext(n) :: Strip(n) in StripAll(ns)
    ensures forall x | x in StripAll(ns) :: IsStripped(ns, x)
  {
    forall n | n in ns ensures StripFacts(w, n, dep, curatedOnly) {
      StripKeeps(w, n, dep, curatedOnly);
      if IsContext(n) { ContextHasNoHit(w, n, dep, curatedOnly); }
    }
    StripAllHas(ns);
    hide Strip, IsContext;
    forall n | n in ns && !IsContext(n) ensures Strip(n) in StripAll(ns) { assert IsStripped(ns, Strip(n)); }
  }

  lemma BarePasses(w: World, c: Config, dep: Dep, curatedOnly: bool)
    ensures Passes(w, Bare(c), dep, curatedOnly) <==> Passes(w, c, dep, curatedOnly)
  {
    ByMembership(w, c, dep, curatedOnly);
    ByMembership(w, Bare(c), dep, curatedOnly);
    EachStripped(w, c.nodes, dep, curatedOnly);
    hide NodeAffects, ContextOnly, TopHit, CuratedHit, Passes, Strip, StripAll, IsContext;
  }

  lemma BareHits(w: World, c: Config, dep: Dep, curatedOnly: bool)
    ensures (exists n :: n in StripAll(c.nodes) && TopHit(w, n, dep, curatedOnly)) <==> (exists n :: n in c.nodes && TopHit(w, n, dep, curatedOnly))
    ensures (exists n :: n in StripAll(c.nodes) && CuratedHit(w, n, dep, curatedOnly)) <==> (exists n :: n in c.nodes && CuratedHit(w, n, dep, curatedOnly))
  {
    EachStripped(w, c.nodes, dep, curatedOnly);
    hide NodeAffects, ContextOnly, TopHit, CuratedHit, Strip, StripAll, IsContext;
  }

  lemma BareConfigSame(w: World, c: Config, dep: Dep, curatedOnly: bool)
    ensures Passes(w, Bare(c), dep, curatedOnly) <==> Passes(w, c, dep, curatedOnly)
    ensures Counts(w, Bare(c), dep, curatedOnly) <==> Counts(w, c, dep, curatedOnly)
    ensures CountsExact(w, Bare(c), dep, curatedOnly) <==> CountsExact(w, c, dep, curatedOnly)
    ensures Null in Bare(c).nodes <==> Null in c.nodes
  {
    BarePasses(w, c, dep, curatedOnly);
    BareHits(w, c, dep, curatedOnly);
    NullStays(c.nodes);
    ByMembership(w, c, dep, curatedOnly);
    ByMembership(w, Bare(c), dep, curatedOnly);
    hide NodeAffects, ContextOnly, TopHit, CuratedHit, Passes, StripAll;
  }

  lemma NullStays(ns: seq<Node>)
    ensures Null in StripAll(ns) <==> Null in ns
  {
    StripAllHas(ns);
    if Null in ns { assert !IsContext(Null) && Null == Strip(Null) && IsStripped(ns, Null); }
  }

  /** Taking every platform node out of every configuration, at every depth, leaves the verdict as it is. */
  lemma BareSame(w: World, cve: Cve, dep: Dep, curatedOnly: bool)
    ensures Verdict(w, BareCve(cve), dep, curatedOnly) == Verdict(w, cve, dep, curatedOnly)
  {
    var bare := BareCve(cve);
    forall i | 0 <= i < |cve.configs|
      ensures Passes(w, bare.configs[i], dep, curatedOnly) <==> Passes(w, cve.configs[i], dep, curatedOnly)
      ensures Counts(w, bare.configs[i], dep, curatedOnly) <==> Counts(w, cve.configs[i], dep, curatedOnly)
      ensures CountsExact(w, bare.configs[i], dep, curatedOnly) <==> CountsExact(w, cve.configs[i], dep, curatedOnly)
      ensures Null in bare.configs[i].nodes <==> Null in cve.configs[i].nodes
    {
      BareConfigSame(w, cve.configs[i], dep, curatedOnly);
    }
    hide Passes, Counts, CountsExact, Bare, Names;
    assert Throws(w, bare, dep, curatedOnly) <==> Throws(w, cve, dep, curatedOnly);
    assert AffectedExactly(w, bare, dep, curatedOnly) <==> AffectedExactly(w, cve, dep, curatedOnly);
    assert Affected(w, bare, dep, curatedOnly) <==> Affected(w, cve, dep, curatedOnly);
    hide Throws, Affected, AffectedExactly;
  }

  /**
   * Two records that differ only in platform nodes, added to or removed from any AND or OR
   * configuration or from any node's children at any depth, get the same verdict.
   */
  lemma ContextNeverMatters(w: World, a: Cve, b: Cve, dep: Dep, curatedOnly: bool)
    requires BareCve(a) == BareCve(b)
    ensures Verdict(w, a, dep, curatedOnly) == Verdict(w, b, dep, curatedOnly)
  {
    BareSame(w, a, dep, curatedOnly);
    BareSame(w, b, dep, curatedOnly);
  }

  /** A null node is not a platform node: added to a configuration that passes, it makes the evaluation throw. */
  lemma NullIsNotContext(w: World, c: Config, dep: Dep, curatedOnly: bool)
    ensures Passes(w, c.(nodes := c.nodes + [Null]), dep, curatedOnly) <==> Passes(w, c, dep, curatedOnly)
    ensures Verdict(w, Cve([c.(nodes := c.nodes + [Null])], []), dep, curatedOnly).None? <==> Passes(w, c, dep, curatedOnly)
  {
    hide NodeAffects, ContextOnly, Passes, TopHit, CuratedHit, Affected, AffectedExactly, CountsExact;
    var more := c.(nodes := c.nodes + [Null]);
    ByMembership(w, c, dep, curatedOnly);
    ByMembership(w, more, dep, curatedOnly);
    NullHasNoHit(w, dep, curatedOnly);
    assert forall n :: n in more.nodes <==> n in c.nodes || n == Null;
    assert [more][0] == more;
  }

  lemma NullHasNoHit(w: World, dep: Dep, curatedOnly: bool)
    ensures ContextOnly(Null) && !NodeAffects(w, Null, dep, curatedOnly)
  {
  }

  // ---- Naming ----

  predicate NamesIn(w: World, ms: seq<CpeMatch>, dep: Dep) {
    exists i :: 0 <= i < |ms| && MatchNames(w, ms[i], dep, false)
  }

  datatype Answer = Named | Unnamed | Thrown

  /** Depth first; no answer when a null node is met before a name. */
  function Scan(w: World, ns: seq<Node>, dep: Dep): Answer
    decreases ns
  {
    if ns == [] then Unnamed
    else if ns[0].Null? then Thrown
    else if NamesIn(w, ns[0].matches, dep) then Named
    else
      var inside := Scan(w, ns[0].children, dep);
      if inside == Unnamed then Scan(w, ns[1..], dep) else inside
  }

  function ScanConfigs(w: World, cs: seq<Config>, dep: Dep): Answer {
    if cs == [] then Unnamed
    else
      var first := Scan(w, cs[0].nodes, dep);
      if first == Unnamed then ScanConfigs(w, cs[1..], dep) else first
  }

  /** Does any vulnerable CPE of the record name the dependency, whatever its range? */
  function CveCpeNamesDep(w: World, cve: Cve, dep: Dep): Answer {
    var inConfigs := ScanConfigs(w, cve.configs, dep);
    if inConfigs != Unnamed then inConfigs
    else if exists i :: 0 <= i < |cve.cpes| && cve.cpes[i].Some? && Names(w, cve.cpes[i].value, dep, false) then Named
    else Unnamed
  }

  /** A list that names the dependency at its own level is never scanned without being named. */
  lemma {:induction false} ScanFinds(w: World, ns: seq<Node>, dep: Dep, k: nat)
    requires k < |ns| && ns[k].Node? && NamesIn(w, ns[k].matches, dep)
    ensures Scan(w, ns, dep) != Unnamed
  {
    if k > 0 && ns[0].Node? { ScanFinds(w, ns[1..], dep, k - 1); }
  }

  lemma {:induction false} ScanConfigsFinds(w: World, cs: seq<Config>, dep: Dep, k: nat)
    requires k < |cs| && Scan(w, cs[k].nodes, dep) != Unnamed
    ensures ScanConfigs(w, cs, dep) != Unnamed
  {
    if k > 0 { ScanConfigsFinds(w, cs[1..], dep, k - 1); }
  }

  /** Without null nodes the scan always has an answer. */
  predicate NoNull(ns: seq<Node>)
    decreases ns
  {
    ns == [] || (ns[0].Node? && NoNull(ns[0].children) && NoNull(ns[1..]))
  }

  lemma {:induction false} ScanAnswers(w: World, ns: seq<Node>, dep: Dep)
    requires NoNull(ns)
    ensures !Scan(w, ns, dep).Thrown?
    decreases ns
  {
    if ns != [] {
      ScanAnswers(w, ns[0].children, dep);
      ScanAnswers(w, ns[1..], dep);
    }
  }

  lemma {:induction false} ScanConfigsAnswers(w: World, cs: seq<Config>, dep: Dep)
    requires forall i | 0 <= i < |cs| :: NoNull(cs[i].nodes)
    ensures !ScanConfigs(w, cs, dep).Thrown?
  {
    if cs != [] {
      ScanAnswers(w, cs[0].nodes, dep);
      ScanConfigsAnswers(w, cs[1..], dep);
    }
  }

  lemma CuratedNames(w: World, m: CpeMatch, dep: Dep, curatedOnly: bool)
    requires Hits(w, m, dep, curatedOnly)
    ensures MatchNames(w, m, dep, false) && Hits(w, m, dep, false)
  {
  }

  lemma TopHitNames(w: World, c: Config, dep: Dep, curatedOnly: bool)
    requires Counts(w, c, dep, curatedOnly)
    ensures Scan(w, c.nodes, dep) != Unnamed
  {
    var k :| 0 <= k < |c.nodes| && TopHit(w, c.nodes[k], dep, curatedOnly);
    var n := c.nodes[k];
    var i :| 0 <= i < |n.matches| && Hits(w, n.matches[i], dep, curatedOnly);
    CuratedNames(w, n.matches[i], dep, curatedOnly);
    ScanFinds(w, c.nodes, dep, k);
  }

  /** An affected verdict is never given to a dependency the record does not name. */
  lemma AffectedIsNamed(w: World, cve: Cve, dep: Dep, curatedOnly: bool)
    requires Affected(w, cve, dep, curatedOnly)
    ensures CveCpeNamesDep(w, cve, dep) != Unnamed
    ensures (forall i | 0 <= i < |cve.configs| :: NoNull(cve.configs[i].nodes)) ==> CveCpeNamesDep(w, cve, dep) == Named
  {
    if cve.configs == [] {
      CuratedUri(w, cve, dep, curatedOnly);
    } else {
      ConfigsName(w, cve.configs, dep, curatedOnly);
    }
    hide Affected, Names, Scan, ScanConfigs, NoNull;
    if forall i | 0 <= i < |cve.configs| :: NoNull(cve.configs[i].nodes) {
      ScanConfigsAnswers(w, cve.configs, dep);
    }
  }

  lemma ConfigsName(w: World, cs: seq<Config>, dep: Dep, curatedOnly: bool)
    requires exists k :: 0 <= k < |cs| && Counts(w, cs[k], dep, curatedOnly)
    ensures ScanConfigs(w, cs, dep) != Unnamed
  {
    hide Counts, Scan;
    var k :| 0 <= k < |cs| && Counts(w, cs[k], dep, curatedOnly);
    TopHitNames(w, cs[k], dep, curatedOnly);
    ScanConfigsFinds(w, cs, dep, k);
  }

  lemma CuratedUri(w: World, cve: Cve, dep: Dep, curatedOnly: bool)
    requires cve.configs == [] && Affected(w, cve, dep, curatedOnly)
    ensures CveCpeNamesDep(w, cve, dep) == Named
  {
    var i :| 0 <= i < |cve.cpes| && cve.cpes[i].Some? && Names(w, cve.cpes[i].value, dep, curatedOnly);
    assert Names(w, cve.cpes[i].value, dep, false);
  }

  // ---- Curated only ----

  lemma {:induction false} CuratedAffects(w: World, n: Node, dep: Dep)
    requires NodeAffects(w, n, dep, true)
    ensures NodeAffects(w, n, dep, false)
  {
    if i :| n.Node? && 0 <= i < |n.matches| && Hits(w, n.matches[i], dep, true) {
      CuratedNames(w, n.matches[i], dep, true);
    } else {
      var i :| 0 <= i < |n.children| && NodeAffects(w, n.children[i], dep, true);
      CuratedAffects(w, n.children[i], dep);
    }
  }

  lemma CuratedTop(w: World, n: Node, dep: Dep)
    ensures TopHit(w, n, dep, true) ==> TopHit(w, n, dep, false)
    ensures CuratedHit(w, n, dep, true) ==> CuratedHit(w, n, dep, false)
  {
    if i :| n.Node? && 0 <= i < |n.matches| && Hits(w, n.matches[i], dep, true) {
      CuratedNames(w, n.matches[i], dep, true);
    }
    if i :| n.Node? && 0 <= i < |n.matches| && Hits(w, n.matches[i], dep, true) && IsCurated(w, n.matches[i], dep) {
      CuratedNames(w, n.matches[i], dep, true);
    }
  }

  lemma CuratedCounts(w: World, c: Config, dep: Dep)
    ensures Passes(w, c, dep, true) ==> Passes(w, c, dep, false)
    ensures Counts(w, c, dep, true) ==> Counts(w, c, dep, false)
    ensures CountsExact(w, c, dep, true) ==> CountsExact(w, c, dep, false)
  {
    forall n
      ensures NodeAffects(w, n, dep, true) ==> NodeAffects(w, n, dep, false)
      ensures TopHit(w, n, dep, true) ==> TopHit(w, n, dep, false)
      ensures CuratedHit(w, n, dep, true) ==> CuratedHit(w, n, dep, false)
    {
      CuratedTop(w, n, dep);
      if NodeAffects(w, n, dep, true) { CuratedAffects(w, n, dep); }
    }
    ByMembership(w, c, dep, true);
    ByMembership(w, c, dep, false);
    hide NodeAffects, TopHit, CuratedHit, ContextOnly;
  }

  /** Every hit by the curated map alone is a hit with the heuristic, at no lower confidence. */
  lemma CuratedIsAlsoHit(w: World, cve: Cve, dep: Dep)
    ensures Affected(w, cve, dep, true) ==> Affected(w, cve, dep, false)
    ensures AffectedExactly(w, cve, dep, true) ==> AffectedExactly(w, cve, dep, false)
  {
    forall i | 0 <= i < |cve.configs|
      ensures Counts(w, cve.configs[i], dep, true) ==> Counts(w, cve.configs[i], dep, false)
      ensures CountsExact(w, cve.configs[i], dep, true) ==> CountsExact(w, cve.configs[i], dep, false)
    {
      CuratedCounts(w, cve.configs[i], dep);
    }
    hide Counts, CountsExact;
  }

  // ---- Ranges and confidence ----

  predicate RanksBounds(ok: string -> bool, m: CpeMatch) {
    && (m.startIncluding != "" ==> ok(m.startIncluding)) && (m.startExcluding != "" ==> ok(m.startExcluding))
    && (m.endIncluding != "" ==> ok(m.endIncluding)) && (m.endExcluding != "" ==> ok(m.endExcluding))
  }

  /** Without a pinned version, what lies between two versions in range is in range. */
  lemma RangesAreIntervals(w: World, ok: string -> bool, m: CpeMatch, low: string, v: string, high: string)
    requires RanksOn(w.cmp, ok) && RanksBounds(ok, m) && ok(low) && ok(v) && ok(high)
    requires m.criteria.Some? && !Pins(m.criteria.value.version)
    requires low != "" && v != "" && high != "" && w.cmp(low, v) <= 0 && w.cmp(v, high) <= 0
    requires InRange(w, low, m) && InRange(w, high, m)
    ensures InRange(w, v, m)
  {
    forall b | ok(b)
      ensures w.cmp(low, b) >= 0 ==> w.cmp(v, b) >= 0
      ensures w.cmp(low, b) > 0 ==> w.cmp(v, b) > 0
      ensures w.cmp(high, b) <= 0 ==> w.cmp(v, b) <= 0
      ensures w.cmp(high, b) < 0 ==> w.cmp(v, b) < 0
    {
      assert Sign(w.cmp(low, b)) == -Sign(w.cmp(b, low)) && Sign(w.cmp(v, b)) == -Sign(w.cmp(b, v)) && Sign(w.cmp(high, b)) == -Sign(w.cmp(b, high));
      assert w.cmp(b, low) <= 0 ==> w.cmp(b, v) <= 0;
      assert w.cmp(v, b) <= 0 ==> w.cmp(low, b) <= 0;
      assert w.cmp(high, b) <= 0 ==> w.cmp(v, b) <= 0;
      assert w.cmp(b, v) <= 0 ==> w.cmp(b, high) <= 0;
    }
    hide RanksOn;
  }

  function PinOf(cpe: Cpe): string {
    cpe.version + if Pins(cpe.update) then "-" + cpe.update else ""
  }

  /** A hit on a criteria that pins its version is a hit on that version and no other rank. */
  lemma PinWins(w: World, ok: string -> bool, m: CpeMatch, v: string, u: string)
    requires m.criteria.Some? && Pins(m.criteria.value.version) && v != "" && u != ""
    requires RanksOn(w.cmp, ok) && ok(v) && ok(u) && ok(PinOf(m.criteria.value))
    requires InRange(w, v, m)
    ensures InRange(w, u, m) <==> w.cmp(u, v) == 0
  {
    var pin := PinOf(m.criteria.value);
    assert Sign(w.cmp(u, v)) == -Sign(w.cmp(v, u)) && Sign(w.cmp(v, pin)) == -Sign(w.cmp(pin, v)) && Sign(w.cmp(u, pin)) == -Sign(w.cmp(pin, u));
    assert w.cmp(u, v) <= 0 && w.cmp(v, pin) <= 0 ==> w.cmp(u, pin) <= 0;
    assert w.cmp(pin, v) <= 0 && w.cmp(v, u) <= 0 ==> w.cmp(pin, u) <= 0;
    assert w.cmp(u, pin) <= 0 && w.cmp(pin, v) <= 0 ==> w.cmp(u, v) <= 0;
    assert w.cmp(v, pin) <= 0 && w.cmp(pin, u) <= 0 ==> w.cmp(v, u) <= 0;
  }

  // ---- Nested hits ----

  /** Some child subtree of the node affects the dependency. */
  predicate HitInside(w: World, n: Node, dep: Dep, curatedOnly: bool) {
    n.Node? && exists i :: 0 <= i < |n.children| && NodeAffects(w, n.children[i], dep, curatedOnly)
  }

  /** A configuration passes, yet is not counted. */
  predicate IsLost(w: World, c: Config, dep: Dep, curatedOnly: bool) {
    Passes(w, c, dep, curatedOnly) && !Counts(w, c, dep, curatedOnly)
  }

  /**
   * The configuration lists no hit itself, and the hits stand inside: of some node in an OR, of
   * every node but the platform ones in an AND.
   */
  ghost predicate NestedOnly(w: World, c: Config, dep: Dep, curatedOnly: bool) {
    && (forall n | n in c.nodes :: !TopHit(w, n, dep, curatedOnly))
    && (if c.isAnd then
          (exists n :: n in c.nodes && !ContextOnly(n)) && (forall n | n in c.nodes && !ContextOnly(n) :: HitInside(w, n, dep, curatedOnly))
        else exists n :: n in c.nodes && HitInside(w, n, dep, curatedOnly))
  }

  /** The configuration lists a hit itself; in an AND, every node but the platform ones has one, listed or inside. */
  ghost predicate Listed(w: World, c: Config, dep: Dep, curatedOnly: bool) {
    && (exists n :: n in c.nodes && TopHit(w, n, dep, curatedOnly))
    && (c.isAnd ==> forall n | n in c.nodes && !ContextOnly(n) :: TopHit(w, n, dep, curatedOnly) || HitInside(w, n, dep, curatedOnly))
  }

  /** Where the hits of a configuration stand decides whether it counts and whether its pass is lost. */
  lemma LostIffNested(w: World, c: Config, dep: Dep, curatedOnly: bool)
    ensures IsLost(w, c, dep, curatedOnly) <==> NestedOnly(w, c, dep, curatedOnly)
    ensures Counts(w, c, dep, curatedOnly) <==> Listed(w, c, dep, curatedOnly)
  {
    hide NodeAffects, TopHit, HitInside, ContextOnly, Passes;
    ByMembership(w, c, dep, curatedOnly);
    forall n
      ensures NodeAffects(w, n, dep, curatedOnly) <==> TopHit(w, n, dep, curatedOnly) || HitInside(w, n, dep, curatedOnly)
      ensures TopHit(w, n, dep, curatedOnly) ==> !ContextOnly(n)
    {
      AffectsSomewhere(w, n, dep, curatedOnly);
      if ContextOnly(n) { ContextHasNoHit(w, n, dep, curatedOnly); }
    }
  }

  lemma AffectsSomewhere(w: World, n: Node, dep: Dep, curatedOnly: bool)
    ensures NodeAffects(w, n, dep, curatedOnly) <==> TopHit(w, n, dep, curatedOnly) || HitInside(w, n, dep, curatedOnly)
  {
  }

  /** Children that carry only platform CPEs lose nothing. */
  predicate NestsOnlyContext(c: Config) {
    forall n | n in c.nodes && n.Node? :: forall i | 0 <= i < |n.children| :: ContextOnly(n.children[i])
  }

  /** So a configuration that nests nothing but platform nodes counts exactly when it passes. */
  lemma ContextNestingCounts(w: World, c: Config, dep: Dep, curatedOnly: bool)
    requires NestsOnlyContext(c)
    ensures Counts(w, c, dep, curatedOnly) <==> Passes(w, c, dep, curatedOnly)
  {
    LostIffNested(w, c, dep, curatedOnly);
    forall n | n in c.nodes ensures !HitInside(w, n, dep, curatedOnly) {
      if n.Node? {
        forall i | 0 <= i < |n.children| ensures !NodeAffects(w, n.children[i], dep, curatedOnly) {
          ContextNeverAffects(w, n.children[i], dep, curatedOnly);
        }
      }
    }
    hide Passes, TopHit, HitInside, ContextOnly;
  }

  /**
   * A record with configurations affects the dependency iff one of them lists a hit. One that passes
   * some configuration leaves it unaffected all the same iff some configuration nests its hits and
   * none lists them.
   */
  lemma RecordLostIffNested(w: World, cve: Cve, dep: Dep, curatedOnly: bool)
    requires cve.configs != []
    ensures Affected(w, cve, dep, curatedOnly) <==> exists c :: c in cve.configs && Listed(w, c, dep, curatedOnly)
    ensures (exists c :: c in cve.configs && Passes(w, c, dep, curatedOnly)) && !Affected(w, cve, dep, curatedOnly) <==>
              (exists c :: c in cve.configs && NestedOnly(w, c, dep, curatedOnly))
              && forall c | c in cve.configs :: !Listed(w, c, dep, curatedOnly)
  {
    forall c { LostIffNested(w, c, dep, curatedOnly); }
    AffectedByMembership(w, cve, dep, curatedOnly);
    hide Affected, Passes, Listed, NestedOnly;
  }

  lemma AffectedByMembership(w: World, cve: Cve, dep: Dep, curatedOnly: bool)
    requires cve.configs != []
    ensures Affected(w, cve, dep, curatedOnly) <==> exists c :: c in cve.configs && Counts(w, c, dep, curatedOnly)
  {
    hide Counts;
    if c :| c in cve.configs && Counts(w, c, dep, curatedOnly) {
      var i :| 0 <= i < |cve.configs| && cve.configs[i] == c;
    }
  }

  /** The smallest lost hit: one in the only child of the only node. */
  lemma NestedHitIsLost(w: World, m: CpeMatch, dep: Dep, curatedOnly: bool)
    requires Hits(w, m, dep, curatedOnly)
    ensures var c := Config(false, [Node([], [Node([m], [])])]);
            Passes(w, c, dep, curatedOnly) && Verdict(w, Cve([c], []), dep, curatedOnly) == Some(None)
  {
    var inner := Node([m], []);
    var outer := Node([], [inner]);
    var c := Config(false, [outer]);
    assert inner.matches[0] == m && TopHit(w, inner, dep, curatedOnly);
    assert NodeAffects(w, inner, dep, curatedOnly) && outer.children[0] == inner;
    assert NodeAffects(w, outer, dep, curatedOnly) && c.nodes[0] == outer;
    assert !TopHit(w, outer, dep, curatedOnly) && !CuratedHit(w, outer, dep, curatedOnly);
  }
}
