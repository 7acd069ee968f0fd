/**
 * What a verdict of lib/cpe.js:94-319 means, said with the version comparison and case folding
 * alone: which versions a match covers, which dependencies a CPE names, and when a record affects.
 */
module CpeMeaning {
  import opened Basics
  import opened CpeMatch
  import CpeLaws

  // ---- The versions a match covers ----

  /** At or past an inclusive start, past an exclusive one, at or before an inclusive end, before an exclusive one. */
  predicate Between(w: World, v: string, m: CpeMatch) {
    && (m.startIncluding == "" || w.cmp(v, m.startIncluding) >= 0)
    && (m.startExcluding == "" || w.cmp(v, m.startExcluding) > 0)
    && (m.endIncluding == "" || w.cmp(v, m.endIncluding) <= 0)
    && (m.endExcluding == "" || w.cmp(v, m.endExcluding) < 0)
  }

  predicate IsOpen(field: string) {
    field == "" || field == "*" || field == "-"
  }

  /** Every match covers an unknown version; one that names a version covers that version alone. */
  predicate Covers(w: World, v: string, cpe: Cpe, m: CpeMatch) {
    if v == "" then true
    else if IsOpen(cpe.version) then Between(w, v, m)
    else if IsOpen(cpe.update) then w.cmp(v, cpe.version) == 0
    else w.cmp(v, cpe.version + "-" + cpe.update) == 0
  }

  predicate Reports(w: World, m: CpeMatch, dep: Dep, curatedOnly: bool) {
    m.vulnerable && m.criteria.Some? && Names(w, m.criteria.value, dep, curatedOnly) && Covers(w, dep.version, m.criteria.value, m)
  }

  /** The curated map lists the dependency's full coordinate under the vendor and product. */
  predicate Confirmed(w: World, cpe: Cpe, dep: Dep) {
    var vp := w.lower(cpe.vendor + ":" + cpe.product);
    vp in w.byVendorProduct
    && exists name :: name in w.byVendorProduct[vp]
                      && w.lower(name) == w.lower(if dep.ecosystem == "npm" then "npm:" + dep.artifactId else dep.groupId + ":" + dep.artifactId)
  }

  predicate Vulnerable(n: Node) {
    n.Node? && exists m :: m in n.matches && m.vulnerable
  }

  predicate NodeReports(w: World, n: Node, dep: Dep, curatedOnly: bool) {
    n.Node? && exists m :: m in n.matches && Reports(w, m, dep, curatedOnly)
  }

  predicate NodeConfirms(w: World, n: Node, dep: Dep, curatedOnly: bool) {
    n.Node? && exists m :: m in n.matches && Reports(w, m, dep, curatedOnly) && Confirmed(w, m.criteria.value, dep)
  }

  /** The node at the end of a way down the tree; null where the way leaves it. */
  function Down(n: Node, way: seq<nat>): Node {
    if way == [] then n
    else if n.Null? || way[0] >= |n.children| then Null
    else Down(n.children[way[0]], way[1..])
  }

  /** The node, or one at any depth below it, reports. */
  ghost predicate ReportsWithin(w: World, n: Node, dep: Dep, curatedOnly: bool) {
    exists way :: NodeReports(w, Down(n, way), dep, curatedOnly)
  }

  ghost predicate VulnerableWithin(n: Node) {
    exists way :: Vulnerable(Down(n, way))
  }

  /** An OR passes by a report at any depth; an AND when every node with a vulnerable CPE has one, and there is such a node. */
  ghost predicate PassesBy(w: World, c: Config, dep: Dep, curatedOnly: bool) {
    if c.isAnd then
      (exists n :: n in c.nodes && VulnerableWithin(n)) && (forall n | n in c.nodes && VulnerableWithin(n) :: ReportsWithin(w, n, dep, curatedOnly))
    else exists n :: n in c.nodes && ReportsWithin(w, n, dep, curatedOnly)
  }

  lemma HitsAreReports(w: World, m: CpeMatch, dep: Dep, curatedOnly: bool)
    ensures Hits(w, m, dep, curatedOnly) <==> Reports(w, m, dep, curatedOnly)
  {
    hide Names;
    if m.criteria.Some? {
      var cpe := m.criteria.value;
      assert cpe.version + "" == cpe.version && cpe.version + ("-" + cpe.update) == cpe.version + "-" + cpe.update;
    }
  }

  lemma {:induction false} TopHitReports(w: World, n: Node, dep: Dep, curatedOnly: bool)
    ensures TopHit(w, n, dep, curatedOnly) <==> NodeReports(w, n, dep, curatedOnly)
    ensures CuratedHit(w, n, dep, curatedOnly) <==> NodeConfirms(w, n, dep, curatedOnly)
  {
    hide Hits, Reports, IsCurated, Confirmed;
    if n.Node? {
      forall m | m in n.matches
        ensures Hits(w, m, dep, curatedOnly) <==> Reports(w, m, dep, curatedOnly)
        ensures m.criteria.Some? ==> (IsCurated(w, m, dep) <==> Confirmed(w, m.criteria.value, dep))
        ensures Reports(w, m, dep, curatedOnly) ==> m.criteria.Some?
        ensures exists i :: 0 <= i < |n.matches| && n.matches[i] == m
      {
        HitsAreReports(w, m, dep, curatedOnly);
        if m.criteria.Some? { CuratedIsConfirmed(w, m, dep); }
        ReportsParsed(w, m, dep, curatedOnly);
      }
    }
  }

  lemma ReportsParsed(w: World, m: CpeMatch, dep: Dep, curatedOnly: bool)
    ensures Reports(w, m, dep, curatedOnly) ==> m.criteria.Some?
  {
  }

  lemma CuratedIsConfirmed(w: World, m: CpeMatch, dep: Dep)
    requires m.criteria.Some?
    ensures IsCurated(w, m, dep) <==> Confirmed(w, m.criteria.value, dep)
  {
    ListsHas(w, w.byVendorProduct, VendorProduct(w, m.criteria.value), DepKey(dep));
  }

  lemma ListsHas(w: World, table: map<string, seq<string>>, k: string, name: string)
    ensures Lists(w, table, k, name) <==> k in table && exists x :: x in table[k] && w.lower(x) == w.lower(name)
  {
    if k in table {
      if x :| x in table[k] && w.lower(x) == w.lower(name) {
        var i :| 0 <= i < |table[k]| && table[k][i] == x;
      }
    }
  }

  lemma {:induction false} AffectsIsWithin(w: World, n: Node, dep: Dep, curatedOnly: bool)
    ensures NodeAffects(w, n, dep, curatedOnly) <==> ReportsWithin(w, n, dep, curatedOnly)
  {
    hide TopHit, NodeReports;
    TopHitReports(w, n, dep, curatedOnly);
    NullIsSilent(w, dep, curatedOnly);
    assert Down(n, []) == n;
    if n.Node? {
      forall i | 0 <= i < |n.children| ensures NodeAffects(w, n.children[i], dep, curatedOnly) <==> ReportsWithin(w, n.children[i], dep, curatedOnly) {
        AffectsIsWithin(w, n.children[i], dep, curatedOnly);
      }
      if i: nat, way :| i < |n.children| && NodeReports(w, Down(n.children[i], way), dep, curatedOnly) { StepDown(n, i, way); }
      if way :| NodeReports(w, Down(n, way), dep, curatedOnly) && way != [] {
        assert way[0] < |n.children| && NodeReports(w, Down(n.children[way[0]], way[1..]), dep, curatedOnly);
      }
    }
  }

  lemma {:induction false} ContextIsWithin(n: Node)
    ensures !ContextOnly(n) <==> VulnerableWithin(n)
  {
    hide Vulnerable;
    OwnVulnerable(n);
    assert Down(n, []) == n;
    if n.Node? {
      forall i | 0 <= i < |n.children| ensures !ContextOnly(n.children[i]) <==> VulnerableWithin(n.children[i]) {
        ContextIsWithin(n.children[i]);
      }
      if i: nat, way :| i < |n.children| && Vulnerable(Down(n.children[i], way)) { StepDown(n, i, way); }
      if way :| Vulnerable(Down(n, way)) && way != [] {
        OwnVulnerable(Null);
        assert way[0] < |n.children| && Vulnerable(Down(n.children[way[0]], way[1..]));
      }
    }
  }

  lemma StepDown(n: Node, i: nat, way: seq<nat>)
    requires n.Node? && i < |n.children|
    ensures Down(n, [i] + way) == Down(n.children[i], way)
  {
    assert ([i] + way)[1..] == way;
  }

  lemma NullIsSilent(w: World, dep: Dep, curatedOnly: bool)
    ensures !NodeReports(w, Null, dep, curatedOnly)
  {
  }

  lemma OwnVulnerable(n: Node)
    ensures Vulnerable(n) <==> n.Node? && exists i :: 0 <= i < |n.matches| && n.matches[i].vulnerable
  {
    if m :| n.Node? && m in n.matches && m.vulnerable {
      var i :| 0 <= i < |n.matches| && n.matches[i] == m;
    }
  }

  lemma ConfigSays(w: World, c: Config, dep: Dep, curatedOnly: bool)
    ensures Passes(w, c, dep, curatedOnly) <==> PassesBy(w, c, dep, curatedOnly)
    ensures Counts(w, c, dep, curatedOnly) <==> PassesBy(w, c, dep, curatedOnly) && exists n :: n in c.nodes && NodeReports(w, n, dep, curatedOnly)
    ensures CountsExact(w, c, dep, curatedOnly) <==> PassesBy(w, c, dep, curatedOnly) && exists n :: n in c.nodes && NodeConfirms(w, n, dep, curatedOnly)
  {
    hide NodeAffects, TopHit, CuratedHit, NodeReports, NodeConfirms, ContextOnly, ReportsWithin, VulnerableWithin, Passes;
    CpeLaws.ByMembership(w, c, dep, curatedOnly);
    forall n
      ensures TopHit(w, n, dep, curatedOnly) <==> NodeReports(w, n, dep, curatedOnly)
      ensures CuratedHit(w, n, dep, curatedOnly) <==> NodeConfirms(w, n, dep, curatedOnly)
      ensures NodeAffects(w, n, dep, curatedOnly) <==> ReportsWithin(w, n, dep, curatedOnly)
      ensures !ContextOnly(n) <==> VulnerableWithin(n)
    {
      TopHitReports(w, n, dep, curatedOnly);
      AffectsIsWithin(w, n, dep, curatedOnly);
      ContextIsWithin(n);
    }
  }

  /**
   * What the verdict on any record with configurations is: none when a passing configuration lists a
   * null node; else affected when a passing one reports the dependency at its own nodes, and exact
   * when the curated map confirms such a report.
   */
  lemma RecordSays(w: World, cve: Cve, dep: Dep, curatedOnly: bool)
    requires cve.configs != []
    ensures var verdict := Verdict(w, cve, dep, curatedOnly);
            && (verdict.None? <==> exists c :: c in cve.configs && PassesBy(w, c, dep, curatedOnly) && Null in c.nodes)
            && (verdict.Some? ==>
                  && (verdict.value.Some? <==>
                        exists c, n :: c in cve.configs && PassesBy(w, c, dep, curatedOnly) && n in c.nodes && NodeReports(w, n, dep, curatedOnly))
                  && (verdict.value == Some(Exact) <==>
                        exists c, n :: c in cve.configs && PassesBy(w, c, dep, curatedOnly) && n in c.nodes && NodeConfirms(w, n, dep, curatedOnly)))
  {
    hide Passes, Counts, CountsExact, PassesBy, NodeReports, NodeConfirms;
    forall c | c in cve.configs
      ensures Passes(w, c, dep, curatedOnly) <==> PassesBy(w, c, dep, curatedOnly)
      ensures Counts(w, c, dep, curatedOnly) <==> PassesBy(w, c, dep, curatedOnly) && exists n :: n in c.nodes && NodeReports(w, n, dep, curatedOnly)
      ensures CountsExact(w, c, dep, curatedOnly) <==> PassesBy(w, c, dep, curatedOnly) && exists n :: n in c.nodes && NodeConfirms(w, n, dep, curatedOnly)
      ensures exists i :: 0 <= i < |cve.configs| && cve.configs[i] == c
    {
      ConfigSays(w, c, dep, curatedOnly);
    }
    ConfirmedIsReported(w, cve, dep, curatedOnly);
  }

  /** Without configurations any CPE that names the dependency affects it, at the lower confidence. */
  lemma BareRecordSays(w: World, cve: Cve, dep: Dep, curatedOnly: bool)
    requires cve.configs == []
    ensures Verdict(w, cve, dep, curatedOnly) ==
              Some(if exists cpe :: Some(cpe) in cve.cpes && Names(w, cpe, dep, curatedOnly) then Some(Probable) else None)
  {
    hide Names;
    if cpe :| Some(cpe) in cve.cpes && Names(w, cpe, dep, curatedOnly) {
      var i :| 0 <= i < |cve.cpes| && cve.cpes[i] == Some(cpe);
    } else {
      forall i | 0 <= i < |cve.cpes| && cve.cpes[i].Some? ensures !Names(w, cve.cpes[i].value, dep, curatedOnly) {
        assert Some(cve.cpes[i].value) in cve.cpes;
      }
    }
  }

  lemma ConfirmedIsReported(w: World, cve: Cve, dep: Dep, curatedOnly: bool)
    ensures AffectedExactly(w, cve, dep, curatedOnly) ==> Affected(w, cve, dep, curatedOnly)
  {
    hide Passes, Hits, IsCurated;
    forall i | 0 <= i < |cve.configs| && CountsExact(w, cve.configs[i], dep, curatedOnly) ensures Counts(w, cve.configs[i], dep, curatedOnly) {
      var c := cve.configs[i];
      var k :| 0 <= k < |c.nodes| && CuratedHit(w, c.nodes[k], dep, curatedOnly);
      assert TopHit(w, c.nodes[k], dep, curatedOnly);
    }
  }

  // ---- Naming ----

  /** A name a curated list may give the dependency: its full coordinate or, in Maven, the artifact alone. */
  predicate IsNameOf(w: World, name: string, dep: Dep) {
    if dep.ecosystem == "npm" then w.lower(name) == w.lower("npm:" + dep.artifactId)
    else w.lower(name) == w.lower(dep.groupId + ":" + dep.artifactId) || w.lower(name) == w.lower(dep.artifactId)
  }

  predicate ListedFor(w: World, table: map<string, seq<string>>, k: string, dep: Dep) {
    k in table && exists name :: name in table[k] && IsNameOf(w, name, dep)
  }

  predicate Surround(before: string, part: string, after: string, s: string) {
    s == before + part + after && (before == "" || before[|before| - 1] == '.') && (after == "" || after[0] == '.')
  }

  /** `part` stands whole between dots, or between a dot and an end, or is all of `s`. */
  ghost predicate BetweenDots(part: string, s: string) {
    '.' !in part && exists before, after :: Surround(before, part, after, s)
  }

  /** npm: the package is the product, or the product in the vendor's scope. Maven: the artifact is the product, and the group the vendor or in it. */
  ghost predicate Alike(w: World, cpe: Cpe, dep: Dep) {
    var vendor, product, artifact, group := w.lower(cpe.vendor), w.lower(cpe.product), w.lower(dep.artifactId), w.lower(dep.groupId);
    if dep.ecosystem == "npm" then product == artifact || (vendor != "" && product != "" && '/' !in vendor && artifact == "@" + vendor + "/" + product)
    else product == artifact && (group == vendor || BetweenDots(vendor, group))
  }

  lemma SegmentBetweenDots(part: string, s: string)
    ensures IsSegment(part, s) <==> BetweenDots(part, s)
  {
    hide StandsAt, Surround;
    if i :| 0 <= i <= |s| - |part| && StandsAt(s, i, part) { SurroundedAt(s, i, part); }
    if before, after :| Surround(before, part, after, s) { StandsBetween(before, part, after, s); }
  }

  lemma SurroundedAt(s: string, i: nat, part: string)
    requires i + |part| <= |s| && StandsAt(s, i, part)
    ensures Surround(s[..i], part, s[i + |part|..], s)
  {
    assert s == s[..i] + part + s[i + |part|..];
  }

  lemma StandsBetween(before: string, part: string, after: string, s: string)
    requires Surround(before, part, after, s)
    ensures |before| + |part| <= |s| && StandsAt(s, |before|, part)
  {
    assert s[|before|..|before| + |part|] == part;
  }

  /** Only applications are named: by the curated map, under vendor and product or the product alone, or by likeness when that is allowed. */
  lemma NamesSays(w: World, cpe: Cpe, dep: Dep, curatedOnly: bool)
    ensures Names(w, cpe, dep, curatedOnly) <==>
              && (cpe.part == "a" || cpe.part == "*")
              && (|| ListedFor(w, w.byVendorProduct, w.lower(cpe.vendor + ":" + cpe.product), dep)
                  || ListedFor(w, w.byProduct, w.lower(cpe.product), dep)
                  || (!curatedOnly && Alike(w, cpe, dep)))
  {
    KeysList(w, w.byVendorProduct, VendorProduct(w, cpe), dep);
    KeysList(w, w.byProduct, w.lower(cpe.product), dep);
    SegmentBetweenDots(w.lower(cpe.vendor), w.lower(dep.groupId));
    hide Lists, DepKey, AltKey, ListedFor, IsSegment, BetweenDots;
  }

  lemma KeysList(w: World, table: map<string, seq<string>>, k: string, dep: Dep)
    ensures Lists(w, table, k, DepKey(dep)) || Lists(w, table, k, AltKey(dep)) <==> ListedFor(w, table, k, dep)
  {
    ListsHas(w, table, k, DepKey(dep));
    ListsHas(w, table, k, AltKey(dep));
    hide Lists;
  }

  /** The tree, each node before what is inside it. */
  function Preorder(ns: seq<Node>): seq<Node>
    decreases ns
  {
    if ns == [] then []
    else [ns[0]] + (if ns[0].Null? then [] else Preorder(ns[0].children)) + Preorder(ns[1..])
  }

  function PreorderOf(cs: seq<Config>): seq<Node> {
    if cs == [] then [] else Preorder(cs[0].nodes) + PreorderOf(cs[1..])
  }

  /** The first node that names the dependency or is null. */
  predicate StopsAt(w: World, p: seq<Node>, dep: Dep, i: nat) {
    i < |p| && (p[i].Null? || CpeLaws.NamesIn(w, p[i].matches, dep)) && forall j | 0 <= j < i :: p[j].Node? && !CpeLaws.NamesIn(w, p[j].matches, dep)
  }

  ghost predicate Tells(w: World, p: seq<Node>, dep: Dep, answer: CpeLaws.Answer) {
    match answer
    case Unnamed => forall i: nat :: !StopsAt(w, p, dep, i)
    case Named => exists i: nat :: StopsAt(w, p, dep, i) && p[i].Node?
    case Thrown => exists i: nat :: StopsAt(w, p, dep, i) && p[i].Null?
  }

  lemma TellsJoined(w: World, p: seq<Node>, q: seq<Node>, dep: Dep, first: CpeLaws.Answer, next: CpeLaws.Answer)
    requires Tells(w, p, dep, first) && (first.Unnamed? ==> Tells(w, q, dep, next))
    ensures Tells(w, p + q, dep, if first.Unnamed? then next else first)
  {
    hide CpeLaws.NamesIn;
    var all := p + q;
    if first.Unnamed? {
      NoStop(w, p, dep, |p|);
      assert forall i: nat | StopsAt(w, q, dep, i) :: StopsAt(w, all, dep, |p| + i) && all[|p| + i] == q[i];
      forall i: nat | StopsAt(w, all, dep, i) ensures i >= |p| && StopsAt(w, q, dep, i - |p|) {
        forall j | 0 <= j < i - |p| ensures q[j] == all[|p| + j] { }
      }
    } else {
      var i: nat :| StopsAt(w, p, dep, i) && (p[i].Null? <==> first.Thrown?);
      assert StopsAt(w, all, dep, i) && all[i] == p[i];
    }
  }

  lemma {:induction false} NoStop(w: World, p: seq<Node>, dep: Dep, n: nat)
    requires n <= |p| && forall i: nat :: !StopsAt(w, p, dep, i)
    ensures forall i | 0 <= i < n :: p[i].Node? && !CpeLaws.NamesIn(w, p[i].matches, dep)
  {
    hide CpeLaws.NamesIn;
    if n > 0 {
      NoStop(w, p, dep, n - 1);
      assert !StopsAt(w, p, dep, n - 1);
    }
  }

  lemma {:induction false} ScanTells(w: World, ns: seq<Node>, dep: Dep)
    ensures Tells(w, Preorder(ns), dep, CpeLaws.Scan(w, ns, dep))
    decreases ns
  {
    hide CpeLaws.NamesIn, Tells, StopsAt;
    NothingTells(w, dep);
    if ns != [] {
      var own := if ns[0].Null? then CpeLaws.Thrown else if CpeLaws.NamesIn(w, ns[0].matches, dep) then CpeLaws.Named else CpeLaws.Unnamed;
      OneTells(w, ns[0], dep, own);
      ScanTells(w, ns[1..], dep);
      if ns[0].Null? {
        TellsJoined(w, [ns[0]] + [], Preorder(ns[1..]), dep, own, CpeLaws.Scan(w, ns[1..], dep));
      } else {
        var inside := CpeLaws.Scan(w, ns[0].children, dep);
        ScanTells(w, ns[0].children, dep);
        TellsJoined(w, [ns[0]], Preorder(ns[0].children), dep, own, inside);
        TellsJoined(w, [ns[0]] + Preorder(ns[0].children), Preorder(ns[1..]), dep, if own.Unnamed? then inside else own, CpeLaws.Scan(w, ns[1..], dep));
      }
    }
  }

  lemma NothingTells(w: World, dep: Dep)
    ensures Tells(w, [], dep, CpeLaws.Unnamed)
  {
  }

  lemma OneTells(w: World, n: Node, dep: Dep, answer: CpeLaws.Answer)
    requires answer == if n.Null? then CpeLaws.Thrown else if CpeLaws.NamesIn(w, n.matches, dep) then CpeLaws.Named else CpeLaws.Unnamed
    ensures Tells(w, [n], dep, answer) && Tells(w, [n] + [], dep, answer)
  {
    hide CpeLaws.NamesIn;
    assert [n] + [] == [n];
    if !answer.Unnamed? { assert StopsAt(w, [n], dep, 0); }
  }

  /** Whether a record's CPEs name the dependency: the first node in the order of the document that does, or that is null, decides; then the bare CPEs. */
  lemma {:induction false} NamingSays(w: World, cve: Cve, dep: Dep)
    ensures var p, answer := PreorderOf(cve.configs), CpeLaws.CveCpeNamesDep(w, cve, dep);
            && ((exists i: nat :: StopsAt(w, p, dep, i)) ==> Tells(w, p, dep, answer))
            && ((forall i: nat :: !StopsAt(w, p, dep, i)) ==>
                  answer == if exists cpe :: Some(cpe) in cve.cpes && Names(w, cpe, dep, false) then CpeLaws.Named else CpeLaws.Unnamed)
  {
    ConfigsTell(w, cve.configs, dep);
    SomeNamed(w, cve, dep);
    hide Names, StopsAt;
  }

  lemma SomeNamed(w: World, cve: Cve, dep: Dep)
    ensures (exists i :: 0 <= i < |cve.cpes| && cve.cpes[i].Some? && Names(w, cve.cpes[i].value, dep, false)) <==>
            exists cpe :: Some(cpe) in cve.cpes && Names(w, cpe, dep, false)
  {
    hide Names;
    if cpe :| Some(cpe) in cve.cpes && Names(w, cpe, dep, false) {
      var i :| 0 <= i < |cve.cpes| && cve.cpes[i] == Some(cpe);
    }
    if i :| 0 <= i < |cve.cpes| && cve.cpes[i].Some? && Names(w, cve.cpes[i].value, dep, false) {
      assert Some(cve.cpes[i].value) in cve.cpes;
    }
  }

  lemma {:induction false} ConfigsTell(w: World, cs: seq<Config>, dep: Dep)
    ensures Tells(w, PreorderOf(cs), dep, CpeLaws.ScanConfigs(w, cs, dep))
  {
    hide Tells, CpeLaws.Scan, Preorder;
    NothingTells(w, dep);
    if cs != [] {
      ScanTells(w, cs[0].nodes, dep);
      ConfigsTell(w, cs[1..], dep);
      TellsJoined(w, Preorder(cs[0].nodes), PreorderOf(cs[1..]), dep, CpeLaws.Scan(w, cs[0].nodes, dep), CpeLaws.ScanConfigs(w, cs[1..], dep));
    }
  }

  // ---- One match ----

  function OneMatch(m: CpeMatch): Cve {
    Cve([Config(false, [Node([m], [])])], [])
  }

  predicate IsAffected(w: World, cve: Cve, dep: Dep) {
    Verdict(w, cve, dep, false).Some? && Verdict(w, cve, dep, false).value.Some?
  }

  /** One vulnerable match that names the dependency: at an unknown version, under a pin, and within bounds. */
  lemma OneMatchSays(w: World, m: CpeMatch, dep: Dep)
    requires m.vulnerable && m.criteria.Some? && Names(w, m.criteria.value, dep, false)
    ensures var cpe, affected := m.criteria.value, IsAffected(w, OneMatch(m), dep);
            && (dep.version == "" ==> affected)
            && (dep.version != "" && cpe.version !in {"", "*", "-"} && cpe.update in {"", "*", "-"} ==>
                  (affected <==> w.cmp(dep.version, cpe.version) == 0))
            && (dep.version != "" && cpe.version !in {"", "*", "-"} && cpe.update !in {"", "*", "-"} ==>
                  (affected <==> w.cmp(dep.version, cpe.version + "-" + cpe.update) == 0))
            && (dep.version != "" && cpe.version in {"", "*", "-"} ==>
                  (affected <==>
                     && (m.startIncluding != "" ==> w.cmp(dep.version, m.startIncluding) >= 0)
                     && (m.startExcluding != "" ==> w.cmp(dep.version, m.startExcluding) > 0)
                     && (m.endIncluding != "" ==> w.cmp(dep.version, m.endIncluding) <= 0)
                     && (m.endExcluding != "" ==> w.cmp(dep.version, m.endExcluding) < 0)))
  {
    OneMatchReports(w, m, dep);
    hide Names, Verdict;
  }

  lemma OneMatchReports(w: World, m: CpeMatch, dep: Dep)
    ensures Verdict(w, OneMatch(m), dep, false).Some?
    ensures IsAffected(w, OneMatch(m), dep) <==> Reports(w, m, dep, false)
  {
    hide Reports, Verdict, PassesBy;
    var n := Node([m], []);
    var c := Config(false, [n]);
    RecordSays(w, OneMatch(m), dep, false);
    OneNode(w, m, n, c, dep);
    assert OneMatch(m).configs == [c] && c in [c];
  }

  lemma OneNode(w: World, m: CpeMatch, n: Node, c: Config, dep: Dep)
    requires n == Node([m], []) && c == Config(false, [n])
    ensures NodeReports(w, n, dep, false) <==> Reports(w, m, dep, false)
    ensures NodeReports(w, n, dep, false) ==> PassesBy(w, c, dep, false)
  {
    hide Reports;
    assert n in c.nodes && m in n.matches && Down(n, []) == n;
  }

  /** A match that is not vulnerable, does not parse or does not name the dependency affects no version of it. */
  lemma OneMatchSilent(w: World, m: CpeMatch, dep: Dep)
    requires !m.vulnerable || m.criteria.None? || !Names(w, m.criteria.value, dep, false)
    ensures Verdict(w, OneMatch(m), dep, false) == Some(None)
  {
    OneMatchReports(w, m, dep);
    hide Names, Verdict;
  }

  /** The release that an exclusive end or start names is not affected; the one an inclusive bound names is. */
  lemma TiesWithBounds(w: World, m: CpeMatch, dep: Dep)
    requires m.vulnerable && m.criteria.Some? && Names(w, m.criteria.value, dep, false)
    requires m.criteria.value.version == "*" && dep.version != ""
    ensures m.endExcluding != "" && w.cmp(dep.version, m.endExcluding) == 0 ==> !IsAffected(w, OneMatch(m), dep)
    ensures m.startExcluding != "" && w.cmp(dep.version, m.startExcluding) == 0 ==> !IsAffected(w, OneMatch(m), dep)
    ensures m.startExcluding == m.endIncluding == m.endExcluding == "" && w.cmp(dep.version, m.startIncluding) == 0 ==> IsAffected(w, OneMatch(m), dep)
    ensures m.startIncluding == m.startExcluding == m.endExcluding == "" && w.cmp(dep.version, m.endIncluding) == 0 ==> IsAffected(w, OneMatch(m), dep)
  {
    OneMatchSays(w, m, dep);
    hide Names, IsAffected;
  }
}
