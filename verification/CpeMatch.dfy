/**
 * lib/cpe.js:94-319: does a vulnerability record's CPE configuration tree concern a dependency?
 *
 * Criteria arrive parsed (or as a parse failure). `lower` is case folding and `cmp` the Maven
 * version order. A null node makes some of the loops throw, so an evaluation may have no outcome.
 */
module CpeMatch {
  import opened Basics

  datatype Cpe = Cpe(part: string, vendor: string, product: string, version: string, update: string)

  /** A bound that is absent is the empty string. */
  datatype CpeMatch = CpeMatch(criteria: Option<Cpe>, vulnerable: bool, startIncluding: string, startExcluding: string,
                               endIncluding: string, endExcluding: string)

  datatype Node = Null | Node(matches: seq<CpeMatch>, children: seq<Node>)

  datatype Config = Config(isAnd: bool, nodes: seq<Node>)

  datatype Cve = Cve(configs: seq<Config>, cpes: seq<Option<Cpe>>)

  datatype Dep = Dep(ecosystem: string, groupId: string, artifactId: string, version: string)

  /** The curated map, and everything that is a parameter of the module. */
  datatype World = World(byVendorProduct: map<string, seq<string>>, byProduct: map<string, seq<string>>,
                         lower: string -> string, cmp: (string, string) -> int)

  datatype Confidence = Exact | Probable

  // ---- One CPE against one dependency ----

  function DepKey(dep: Dep): string {
    if dep.ecosystem == "npm" then "npm:" + dep.artifactId else dep.groupId + ":" + dep.artifactId
  }

  function AltKey(dep: Dep): string {
    if dep.ecosystem == "npm" then "npm:" + dep.artifactId else dep.artifactId
  }

  predicate Lists(w: World, table: map<string, seq<string>>, k: string, name: string) {
    k in table && exists i :: 0 <= i < |table[k]| && w.lower(table[k][i]) == w.lower(name)
  }

  function VendorProduct(w: World, cpe: Cpe): string {
    w.lower(cpe.vendor + ":" + cpe.product)
  }

  predicate StandsAt(s: string, i: nat, part: string)
    requires i + |part| <= |s|
  {
    s[i..i + |part|] == part && (i == 0 || s[i - 1] == '.') && (i + |part| == |s| || s[i + |part|] == '.')
  }

  /** `part` is one of the dot-separated segments of `s`. */
  predicate IsSegment(part: string, s: string) {
    '.' !in part && exists i | 0 <= i <= |s| - |part| :: StandsAt(s, i, part)
  }

  /** Name similarity, safe only to refine a match another source made. */
  predicate LooksLike(w: World, cpe: Cpe, dep: Dep) {
    var v, p, a, g := w.lower(cpe.vendor), w.lower(cpe.product), w.lower(dep.artifactId), w.lower(dep.groupId);
    if dep.ecosystem == "npm" then
      p == a || (v != "" && '/' !in v && p != "" && a == "@" + v + "/" + p)
    else
      p == a && (g == v || IsSegment(v, g))
  }

  predicate Names(w: World, cpe: Cpe, dep: Dep, curatedOnly: bool) {
    && cpe.part in {"a", "*"}
    && (|| Lists(w, w.byVendorProduct, VendorProduct(w, cpe), DepKey(dep))
        || Lists(w, w.byVendorProduct, VendorProduct(w, cpe), AltKey(dep))
        || Lists(w, w.byProduct, w.lower(cpe.product), DepKey(dep))
        || Lists(w, w.byProduct, w.lower(cpe.product), AltKey(dep))
        || (!curatedOnly && LooksLike(w, cpe, dep)))
  }

  predicate Pins(v: string) {
    v != "" && v != "*" && v != "-"
  }

  /** An unknown version counts as affected; a version pinned by the criteria wins over the bounds. */
  predicate InRange(w: World, v: string, m: CpeMatch) {
    if v == "" then true
    else if m.criteria.None? then false
    else if Pins(m.criteria.value.version) then
      w.cmp(v, m.criteria.value.version + if Pins(m.criteria.value.update) then "-" + m.criteria.value.update else "") == 0
    else
      && (m.startIncluding != "" ==> w.cmp(v, m.startIncluding) >= 0)
      && (m.startExcluding != "" ==> w.cmp(v, m.startExcluding) > 0)
      && (m.endIncluding != "" ==> w.cmp(v, m.endIncluding) <= 0)
      && (m.endExcluding != "" ==> w.cmp(v, m.endExcluding) < 0)
  }

  predicate MatchNames(w: World, m: CpeMatch, dep: Dep, curatedOnly: bool) {
    m.vulnerable && m.criteria.Some? && Names(w, m.criteria.value, dep, curatedOnly)
  }

  predicate Hits(w: World, m: CpeMatch, dep: Dep, curatedOnly: bool) {
    MatchNames(w, m, dep, curatedOnly) && InRange(w, dep.version, m)
  }

  predicate IsCurated(w: World, m: CpeMatch, dep: Dep) {
    m.criteria.Some? && Lists(w, w.byVendorProduct, VendorProduct(w, m.criteria.value), DepKey(dep))
  }

  // ---- Nodes ----

  /** The node itself lists a hit. */
  predicate TopHit(w: World, n: Node, dep: Dep, curatedOnly: bool) {
    n.Node? && exists i :: 0 <= i < |n.matches| && Hits(w, n.matches[i], dep, curatedOnly)
  }

  predicate NodeAffects(w: World, n: Node, dep: Dep, curatedOnly: bool) {
    TopHit(w, n, dep, curatedOnly) || (n.Node? && exists i :: 0 <= i < |n.children| && NodeAffects(w, n.children[i], dep, curatedOnly))
  }

  predicate ContextOnly(n: Node) {
    n.Node? ==>
      && (forall i :: 0 <= i < |n.matches| ==> !n.matches[i].vulnerable)
      && (forall i :: 0 <= i < |n.children| ==> ContextOnly(n.children[i]))
  }

  lemma {:induction false} ContextNeverAffects(w: World, n: Node, dep: Dep, curatedOnly: bool)
    requires ContextOnly(n)
    ensures !NodeAffects(w, n, dep, curatedOnly)
  {
    if n.Node? {
      forall i | 0 <= i < |n.children| ensures !NodeAffects(w, n.children[i], dep, curatedOnly) {
        ContextNeverAffects(w, n.children[i], dep, curatedOnly);
      }
    }
  }

  // ---- Configurations ----

  /** An AND asks only its nodes that carry a vulnerable CPE, and at least one of those. */
  predicate Passes(w: World, c: Config, dep: Dep, curatedOnly: bool) {
    if c.isAnd then
      && (exists i :: 0 <= i < |c.nodes| && !ContextOnly(c.nodes[i]))
      && (forall i :: 0 <= i < |c.nodes| && !ContextOnly(c.nodes[i]) ==> NodeAffects(w, c.nodes[i], dep, curatedOnly))
    else exists i :: 0 <= i < |c.nodes| && NodeAffects(w, c.nodes[i], dep, curatedOnly)
  }

  /** A passing configuration that itself lists a hit, and one the curated map confirms. */
  predicate Counts(w: World, c: Config, dep: Dep, curatedOnly: bool) {
    Passes(w, c, dep, curatedOnly) && exists i :: 0 <= i < |c.nodes| && TopHit(w, c.nodes[i], dep, curatedOnly)
  }

  predicate CuratedHit(w: World, n: Node, dep: Dep, curatedOnly: bool) {
    n.Node? && exists i :: 0 <= i < |n.matches| && Hits(w, n.matches[i], dep, curatedOnly) && IsCurated(w, n.matches[i], dep)
  }

  predicate CountsExact(w: World, c: Config, dep: Dep, curatedOnly: bool) {
    Passes(w, c, dep, curatedOnly) && exists i :: 0 <= i < |c.nodes| && CuratedHit(w, c.nodes[i], dep, curatedOnly)
  }

  predicate Throws(w: World, cve: Cve, dep: Dep, curatedOnly: bool) {
    exists i :: 0 <= i < |cve.configs| && Passes(w, cve.configs[i], dep, curatedOnly) && Null in cve.configs[i].nodes
  }

  predicate Affected(w: World, cve: Cve, dep: Dep, curatedOnly: bool) {
    || (exists i :: 0 <= i < |cve.configs| && Counts(w, cve.configs[i], dep, curatedOnly))
    || (cve.configs == [] && exists i :: 0 <= i < |cve.cpes| && cve.cpes[i].Some? && Names(w, cve.cpes[i].value, dep, curatedOnly))
  }

  predicate AffectedExactly(w: World, cve: Cve, dep: Dep, curatedOnly: bool) {
    exists i :: 0 <= i < |cve.configs| && CountsExact(w, cve.configs[i], dep, curatedOnly)
  }

  /** No outcome when the evaluation throws; otherwise the confidence, if affected at all. */
  function Verdict(w: World, cve: Cve, dep: Dep, curatedOnly: bool): Option<Option<Confidence>> {
    if Throws(w, cve, dep, curatedOnly) then None
    else if AffectedExactly(w, cve, dep, curatedOnly) then Some(Some(Exact))
    else if Affected(w, cve, dep, curatedOnly) then Some(Some(Probable))
    else Some(None)
  }

  // ---- Evaluation ----

  function Noted(best: Option<Confidence>, c: Confidence): Option<Confidence> {
    if c == Exact || best == Some(Exact) then Some(Exact) else Some(Probable)
  }

  /** What a best-so-far says of the hits it has seen. */
  predicate Sums(best: Option<Confidence>, some: bool, curated: bool) {
    (best.Some? <==> some) && (best == Some(Exact) <==> curated)
  }

  method ScanNode(w: World, n: Node, dep: Dep, curatedOnly: bool, before: Option<Confidence>) returns (best: Option<Confidence>)
    requires n.Node?
    ensures Sums(best, before.Some? || TopHit(w, n, dep, curatedOnly), before == Some(Exact) || CuratedHit(w, n, dep, curatedOnly))
  {
    best := before;
    hide Hits, IsCurated;
    for k := 0 to |n.matches|
      invariant Sums(best, before.Some? || exists i :: 0 <= i < k && Hits(w, n.matches[i], dep, curatedOnly),
                     before == Some(Exact) || exists i :: 0 <= i < k && Hits(w, n.matches[i], dep, curatedOnly) && IsCurated(w, n.matches[i], dep))
    {
      var m := n.matches[k];
      if Hits(w, m, dep, curatedOnly) {
        best := Noted(best, if IsCurated(w, m, dep) then Exact else Probable);
      }
    }
  }

  /** The hits a passing configuration lists; none when a null node is met on the way. */
  method ScanConfig(w: World, c: Config, dep: Dep, curatedOnly: bool, before: Option<Confidence>) returns (best: Option<Option<Confidence>>)
    ensures best.None? <==> Null in c.nodes
    ensures best.Some? ==>
              Sums(best.value, before.Some? || exists i :: 0 <= i < |c.nodes| && TopHit(w, c.nodes[i], dep, curatedOnly),
                   before == Some(Exact) || exists i :: 0 <= i < |c.nodes| && CuratedHit(w, c.nodes[i], dep, curatedOnly))
  {
    var sofar := before;
    hide TopHit, CuratedHit;
    for k := 0 to |c.nodes|
      invariant Null !in c.nodes[..k]
      invariant Sums(sofar, before.Some? || exists i :: 0 <= i < k && TopHit(w, c.nodes[i], dep, curatedOnly),
                     before == Some(Exact) || exists i :: 0 <= i < k && CuratedHit(w, c.nodes[i], dep, curatedOnly))
    {
      if c.nodes[k] == Null { return None; }
      sofar := ScanNode(w, c.nodes[k], dep, curatedOnly, sofar);
    }
    return Some(sofar);
  }

  lemma VerdictIs(w: World, cve: Cve, dep: Dep, curatedOnly: bool, best: Option<Confidence>)
    requires !Throws(w, cve, dep, curatedOnly)
    requires Sums(best, Affected(w, cve, dep, curatedOnly), AffectedExactly(w, cve, dep, curatedOnly))
    ensures Verdict(w, cve, dep, curatedOnly) == Some(best)
  {
    hide Throws, Affected, AffectedExactly;
    if best.Some? { assert best.value == Exact || best.value == Probable; }
  }

  method EvaluateCveForDep(w: World, cve: Cve, dep: Dep, curatedOnly: bool) returns (verdict: Option<Option<Confidence>>)
    ensures verdict == Verdict(w, cve, dep, curatedOnly)
  {
    var best: Option<Confidence> := None;
    hide TopHit, CuratedHit, Passes, Names;
    for k := 0 to |cve.configs|
      invariant forall i | 0 <= i < k && Passes(w, cve.configs[i], dep, curatedOnly) :: Null !in cve.configs[i].nodes
      invariant Sums(best, exists i :: 0 <= i < k && Counts(w, cve.configs[i], dep, curatedOnly),
                     exists i :: 0 <= i < k && CountsExact(w, cve.configs[i], dep, curatedOnly))
    {
      var c := cve.configs[k];
      if Passes(w, c, dep, curatedOnly) {
        var more := ScanConfig(w, c, dep, curatedOnly, best);
        if more.None? { return None; }
        best := more.value;
      }
    }
    assert !Throws(w, cve, dep, curatedOnly);
    assert AffectedExactly(w, cve, dep, curatedOnly) <==> best == Some(Exact);
    if cve.configs == [] {
      assert best == None;
      for k := 0 to |cve.cpes|
        invariant best == None
        invariant forall i | 0 <= i < k && cve.cpes[i].Some? :: !Names(w, cve.cpes[i].value, dep, curatedOnly)
      {
        if cve.cpes[k].Some? && Names(w, cve.cpes[k].value, dep, curatedOnly) {
          best := Noted(best, Probable);
          break;
        }
      }
    }
    assert Affected(w, cve, dep, curatedOnly) <==> best.Some?;
    VerdictIs(w, cve, dep, curatedOnly, best);
    return Some(best);
  }
}
