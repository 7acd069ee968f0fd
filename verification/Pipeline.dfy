/**
 * From merged POMs to filed findings: lib/cve-match.js:51-163 and 389-407, lib/cve-download.js:144-170
 * and lib/attribution.js:53-123 taken together.
 */
module Pipeline {
  import opened Basics
  import opened Orders
  import opened MavenReactor
  import opened Collection
  import opened Attribution
  import BranchFix
  import CveWindows
  import MavenVersion
  import MavenParse
  import MavenDensity
  import MavenRanges
  import MavenSpelling

  /** The windows a timeline entry is expanded into. */
  function WindowsOf(sch: BranchFix.Scheme<string>, t: CveWindows.Entry<string>): seq<BranchFix.Spec<string>> {
    var s := CveWindows.Timeline(sch, t);
    CveWindows.Windows(t, s, |s| + 1)
  }

  /** A version is scanned for a coordinate exactly when some accepted entry states it, concretely. */
  lemma ScannedIffEntered(cmp: (string, string) -> int, es: seq<Entry>, key: string, v: string)
    requires key in AllEntered(cmp, map[], es)
    ensures v in ScannedVersions(AllEntered(cmp, map[], es)[key]) <==> IsConcrete(v) && exists e :: EnteredAt(es, key, v, e)
  {
    CollectedRec(cmp, es, key);
    var r := AllEntered(cmp, map[], es)[key];
    hide Fold, AllEntered, EnteredAt;
    forall u | IsConcrete(u) ensures u in r.books.versions <==> exists e :: EnteredAt(es, key, u, e) {
      BooksOfEntries(es, key, u);
    }
    assert r.books.versions == [] ==> !IsConcrete(r.version);
  }

  lemma WindowsDecide(sch: BranchFix.Scheme<string>, t: CveWindows.Entry<string>, id: string, v: string)
    ensures Affects(sch, CveEntry(id, WindowsOf(sch, t)), v) <==> CveWindows.Accepted(sch, t, v)
  {
    var ws := WindowsOf(sch, t);
    hide CveWindows.Windows, CveWindows.Timeline, BranchFix.IsVersionAffected;
    if CveWindows.Accepted(sch, t, v) {
      var w :| w in ws && BranchFix.IsVersionAffected(sch, v, w);
      var i :| 0 <= i < |ws| && ws[i] == w;
    }
    if Affects(sch, CveEntry(id, ws), v) {
      var i :| 0 <= i < |ws| && BranchFix.IsVersionAffected(sch, v, ws[i]);
      assert ws[i] in ws;
    }
  }

  /**
   * The whole way: an advisory with a timeline hits a coordinate at a version exactly when some
   * accepted POM entry states that version and the timeline says it is affected; the finding is
   * filed under exactly the POMs stating it, and its fix is one the version does not meet. The
   * order is asked only of the version and of those the timeline names (`ok`).
   */
  lemma FindingsAreExact(sch: BranchFix.Scheme<string>, ok: string -> bool, es: seq<Entry>, key: string, v: string,
                         id: string, t: CveWindows.Entry<string>)
    requires key in AllEntered(sch.cmp, map[], es) && ok(v) && !sch.blank(v)
    requires CveWindows.Usable(sch, ok, t) && CveWindows.InsideBounds(sch, ok, t)
    ensures var r, cve := AllEntered(sch.cmp, map[], es)[key], CveEntry(id, WindowsOf(sch, t));
            var a := Attributed(r.(version := v)).books.manifests;
            && ((cve, v) in Hits(sch, [cve], ScannedVersions(r)) <==>
                  IsConcrete(v) && (exists e :: EnteredAt(es, key, v, e)) && CveWindows.Means(sch, t, v))
            && ((cve, v) in Hits(sch, [cve], ScannedVersions(r)) ==>
                  && (forall p :: p in a <==> exists e :: EnteredAt(es, key, v, e) && e.pom == p)
                  && !BranchFix.Meets(sch.cmp, v, BranchFix.FixFromRanges(sch, v, cve.ranges)))
  {
    var r, cve := AllEntered(sch.cmp, map[], es)[key], CveEntry(id, WindowsOf(sch, t));
    ScannedIffEntered(sch.cmp, es, key, v);
    WindowsDecide(sch, t, id, v);
    CveWindows.ExpansionPreservesMeaning(sch, ok, t, v);
    BranchFix.FixIsAhead(sch, v, cve.ranges);
    if v in ScannedVersions(r) { MatchedWhereEntered(sch.cmp, es, key, v); }
    assert [cve][0] == cve;
    hide AllEntered, Attributed, EnteredAt, Affects, CveWindows.Means, CveWindows.Accepted, CveWindows.InsideBounds, BranchFix.Meets, ScannedVersions;
  }

  /** A timeline and a version whose texts are all orderly Maven versions; `version` may be no version at all. */
  ghost predicate IsOrderlyTimeline(t: CveWindows.Entry<string>) {
    && (forall c | c in t.changes :: MavenRanges.IsVersionLike(c.at) && MavenSpelling.IsOrderlyText(c.at))
    && (MavenRanges.IsVersionLike(t.version) ==> MavenSpelling.IsOrderlyText(t.version))
    && (MavenRanges.IsVersionLike(t.version) || t.changes != [])
    && (t.lessThan.Some? && MavenRanges.IsVersionLike(t.lessThan.value) ==> MavenSpelling.IsOrderlyText(t.lessThan.value))
    && (t.lessThanOrEqual.Some? && MavenRanges.IsVersionLike(t.lessThanOrEqual.value) ==> MavenSpelling.IsOrderlyText(t.lessThanOrEqual.value))
    && (t.lessThan.Some? || t.lessThanOrEqual.Some?)
  }

  lemma OrderlyTimelineIsUsable(collate: MavenVersion.Collation, t: CveWindows.Entry<string>)
    requires TotalPreorder(collate) && IsOrderlyTimeline(t)
    ensures CveWindows.Usable(MavenRanges.MavenScheme(collate), (v: string) => MavenSpelling.IsOrderlyText(v), t)
  {
    hide RanksOn, TotalPreorder, MavenRanges.IsVersionLike, MavenSpelling.IsOrderlyText, MavenRanges.IsBlank;
    MavenRanges.OrderlyTextsRank(collate);
    var sch := MavenRanges.MavenScheme(collate);
    forall v | sch.like(v) ensures !sch.blank(v) { MavenRanges.VersionLikeIsNotBlank(v); }
  }

  /** The program's comparison leaves no gap between orderly versions. */
  lemma MavenIsDense(collate: MavenVersion.Collation)
    requires TotalPreorder(collate)
    ensures CveWindows.Dense(MavenRanges.MavenScheme(collate), (v: string) => MavenSpelling.IsOrderlyText(v))
  {
    hide TotalPreorder, MavenSpelling.IsOrderlyText, MavenParse.CompareStrings, CveWindows.HasBetween;
    var sch, ok := MavenRanges.MavenScheme(collate), (v: string) => MavenSpelling.IsOrderlyText(v);
    forall x, y | ok(x) && ok(y) && sch.cmp(x, y) < 0 ensures CveWindows.HasBetween(sch, ok, x, y) {
      MavenHasBetween(collate, x, y);
    }
  }

  lemma MavenHasBetween(collate: MavenVersion.Collation, x: string, y: string)
    requires TotalPreorder(collate) && MavenSpelling.IsOrderlyText(x) && MavenSpelling.IsOrderlyText(y)
    requires MavenParse.CompareStrings(collate, x, y) < 0
    ensures CveWindows.HasBetween(MavenRanges.MavenScheme(collate), (v: string) => MavenSpelling.IsOrderlyText(v), x, y)
  {
    hide TotalPreorder, MavenSpelling.IsOrderlyText, MavenParse.CompareStrings, MavenParse.ParseMavenVersion;
    var v := MavenDensity.OrderlyTextsAreDense(collate, x, y);
    var sch, ok := MavenRanges.MavenScheme(collate), (u: string) => MavenSpelling.IsOrderlyText(u);
    assert ok(v) && !sch.blank(v) && sch.cmp(v, x) > 0 && sch.cmp(v, y) < 0;
    assert CveWindows.HasBetween(sch, ok, x, y);
  }

  /**
   * On a timeline of orderly versions the expansion is right exactly when no period it calls affected
   * starts before the entry's version or ends past its upper bounds, as the program compares them.
   */
  lemma MavenExpansionIsExact(collate: MavenVersion.Collation, t: CveWindows.Entry<string>)
    requires TotalPreorder(collate) && IsOrderlyTimeline(t)
    ensures var sch := MavenRanges.MavenScheme(collate);
            CveWindows.PlainlyInside(sch, t) <==>
            forall v | MavenSpelling.IsOrderlyText(v) && !MavenRanges.IsBlank(v) :: CveWindows.Accepted(sch, t, v) <==> CveWindows.Means(sch, t, v)
  {
    hide TotalPreorder, IsOrderlyTimeline, MavenSpelling.IsOrderlyText, MavenRanges.IsBlank, CveWindows.Accepted, CveWindows.Means;
    OrderlyTimelineIsUsable(collate, t);
    MavenIsDense(collate);
    CveWindows.PlainlyInsideIsExact(MavenRanges.MavenScheme(collate), (x: string) => MavenSpelling.IsOrderlyText(x), t);
  }

  /** The whole way with the program's own comparison, on orderly versions. */
  lemma MavenFindingsAreExact(collate: MavenVersion.Collation, es: seq<Entry>, key: string, v: string, id: string, t: CveWindows.Entry<string>)
    requires TotalPreorder(collate) && IsOrderlyTimeline(t)
    requires var sch := MavenRanges.MavenScheme(collate);
             && key in AllEntered(sch.cmp, map[], es)
             && CveWindows.PlainlyInside(sch, t)
    requires MavenSpelling.IsOrderlyText(v) && !MavenRanges.IsBlank(v)
    ensures var sch := MavenRanges.MavenScheme(collate);
            var r, cve := AllEntered(sch.cmp, map[], es)[key], CveEntry(id, WindowsOf(sch, t));
            var a := Attributed(r.(version := v)).books.manifests;
            && ((cve, v) in Hits(sch, [cve], ScannedVersions(r)) <==>
                  IsConcrete(v) && (exists e :: EnteredAt(es, key, v, e)) && CveWindows.Means(sch, t, v))
            && ((cve, v) in Hits(sch, [cve], ScannedVersions(r)) ==>
                  && (forall p :: p in a <==> exists e :: EnteredAt(es, key, v, e) && e.pom == p)
                  && !BranchFix.Meets(sch.cmp, v, BranchFix.FixFromRanges(sch, v, cve.ranges)))
  {
    OrderlyTimelineIsUsable(collate, t);
    MavenIsDense(collate);
    CveWindows.PlainlyInsideIsExact(MavenRanges.MavenScheme(collate), (x: string) => MavenSpelling.IsOrderlyText(x), t);
    FindingsAreExact(MavenRanges.MavenScheme(collate), (x: string) => MavenSpelling.IsOrderlyText(x), es, key, v, id, t);
  }

  // ---- Records without a timeline ----

  /**
   * A record without a timeline hits a coordinate at a version exactly when some accepted POM entry
   * states that version and it lies in the extent of one of the record's entries.
   */
  lemma RecordFindingsAreExact(sch: BranchFix.Scheme<string>, es: seq<Entry>, key: string, v: string, id: string,
                               ranges: seq<BranchFix.Spec<string>>)
    requires key in AllEntered(sch.cmp, map[], es) && !sch.blank(v)
    ensures var r, cve := AllEntered(sch.cmp, map[], es)[key], CveEntry(id, ranges);
            var a := Attributed(r.(version := v)).books.manifests;
            && ((cve, v) in Hits(sch, [cve], ScannedVersions(r)) <==>
                  IsConcrete(v) && (exists e :: EnteredAt(es, key, v, e))
                  && exists x :: x in ranges && BranchFix.Within(sch.cmp, v, BranchFix.ExtentOf(sch, x)))
            && ((cve, v) in Hits(sch, [cve], ScannedVersions(r)) ==>
                  && (forall p :: p in a <==> exists e :: EnteredAt(es, key, v, e) && e.pom == p)
                  && !BranchFix.Meets(sch.cmp, v, BranchFix.FixFromRanges(sch, v, ranges)))
  {
    var r, cve := AllEntered(sch.cmp, map[], es)[key], CveEntry(id, ranges);
    ScannedIffEntered(sch.cmp, es, key, v);
    AffectsIffWithin(sch, id, ranges, v);
    BranchFix.FixIsAhead(sch, v, ranges);
    if v in ScannedVersions(r) { MatchedWhereEntered(sch.cmp, es, key, v); }
    assert [cve][0] == cve;
    hide AllEntered, Attributed, EnteredAt, Affects, BranchFix.Meets, BranchFix.Within, BranchFix.ExtentOf, ScannedVersions;
  }

  lemma AffectsIffWithin(sch: BranchFix.Scheme<string>, id: string, ranges: seq<BranchFix.Spec<string>>, v: string)
    requires !sch.blank(v)
    ensures Affects(sch, CveEntry(id, ranges), v) <==> exists x :: x in ranges && BranchFix.Within(sch.cmp, v, BranchFix.ExtentOf(sch, x))
  {
    forall x { BranchFix.AffectedIffWithin(sch, v, x); }
    hide BranchFix.IsVersionAffected, BranchFix.Within, BranchFix.ExtentOf;
    if i :| 0 <= i < |ranges| && BranchFix.IsVersionAffected(sch, v, ranges[i]) { assert ranges[i] in ranges; }
    if x :| x in ranges && BranchFix.Within(sch.cmp, v, BranchFix.ExtentOf(sch, x)) {
      var i :| 0 <= i < |ranges| && ranges[i] == x;
    }
  }

  /** A record that lists one exact version hits that version, and what ties with it, and no later one. */
  lemma ExactVersionFindings(sch: BranchFix.Scheme<string>, es: seq<Entry>, key: string, v: string, id: string, x: string)
    requires key in AllEntered(sch.cmp, map[], es) && !sch.blank(v) && sch.like(x)
    ensures var r, cve := AllEntered(sch.cmp, map[], es)[key], CveEntry(id, [BranchFix.Spec(Some(x), BranchFix.Affected, None, None)]);
            (cve, v) in Hits(sch, [cve], ScannedVersions(r)) <==>
            IsConcrete(v) && (exists e :: EnteredAt(es, key, v, e)) && sch.cmp(v, x) == 0
  {
    var spec := BranchFix.Spec(Some(x), BranchFix.Affected, None, None);
    RecordFindingsAreExact(sch, es, key, v, id, [spec]);
    assert [spec][0] == spec && BranchFix.ExtentOf(sch, spec) == BranchFix.Only(x);
    hide AllEntered, EnteredAt, ScannedVersions, Hits, Attributed;
  }

  // ---- In terms of the POMs ----

  /** The POM declares or pins the coordinate at this version. */
  ghost predicate StatedBy(o: Options, poms: seq<Pom>, key: string, v: string, path: string) {
    exists p, raw, managed :: p in poms && p.path == path && raw in ListOf(p, managed) && Accepts(o, path, raw)
                              && EntryOf(o, path, raw, managed).key == key && EntryOf(o, path, raw, managed).version == v
  }

  lemma EnteredIffStated(o: Options, poms: seq<Pom>, key: string, v: string, path: string)
    ensures (exists e :: EnteredAt(EntriesOf(o, poms), key, v, e) && e.pom == path) <==> StatedBy(o, poms, key, v, path)
  {
    var es := EntriesOf(o, poms);
    forall e ensures e in es <==> IsEntryOf(o, poms, e) { EntriesOfHas(o, poms, e); }
    hide EntriesOf, Accepts;
    if p, raw, managed :| p in poms && p.path == path && raw in ListOf(p, managed) && Accepts(o, path, raw)
                          && EntryOf(o, path, raw, managed).key == key && EntryOf(o, path, raw, managed).version == v {
      assert IsEntryOf(o, poms, EntryOf(o, path, raw, managed));
      assert EnteredAt(es, key, v, EntryOf(o, path, raw, managed));
    }
    if e :| EnteredAt(es, key, v, e) && e.pom == path {
      assert IsEntryOf(o, poms, e);
      var p, raw, managed :| p in poms && raw in ListOf(p, managed) && Accepts(o, p.path, raw) && e == EntryOf(o, p.path, raw, managed);
    }
  }

  /**
   * From the POMs to the findings, with the program's own comparison: an advisory timeline hits a
   * coordinate at an orderly version exactly when some POM states that version and the timeline says
   * affected; the finding is filed under exactly the POMs stating it, with a fix it does not meet.
   */
  lemma MavenFindingsFromPoms(collate: MavenVersion.Collation, o: Options, poms: seq<Pom>, key: string, v: string, id: string,
                              t: CveWindows.Entry<string>)
    requires TotalPreorder(collate) && IsOrderlyTimeline(t) && CveWindows.PlainlyInside(MavenRanges.MavenScheme(collate), t)
    requires MavenSpelling.IsOrderlyText(v) && !MavenRanges.IsBlank(v)
    requires key in AllEntered(MavenRanges.MavenScheme(collate).cmp, map[], EntriesOf(o, poms))
    ensures var sch := MavenRanges.MavenScheme(collate);
            var r, cve := AllEntered(sch.cmp, map[], EntriesOf(o, poms))[key], CveEntry(id, WindowsOf(sch, t));
            var a := Attributed(r.(version := v)).books.manifests;
            && ((cve, v) in Hits(sch, [cve], ScannedVersions(r)) <==>
                  IsConcrete(v) && (exists p :: StatedBy(o, poms, key, v, p)) && CveWindows.Means(sch, t, v))
            && ((cve, v) in Hits(sch, [cve], ScannedVersions(r)) ==>
                  && (forall p :: p in a <==> StatedBy(o, poms, key, v, p))
                  && !BranchFix.Meets(sch.cmp, v, BranchFix.FixFromRanges(sch, v, cve.ranges)))
  {
    MavenFindingsAreExact(collate, EntriesOf(o, poms), key, v, id, t);
    forall p ensures (exists e :: EnteredAt(EntriesOf(o, poms), key, v, e) && e.pom == p) <==> StatedBy(o, poms, key, v, p) {
      EnteredIffStated(o, poms, key, v, p);
    }
    hide AllEntered, EntriesOf, StatedBy, EnteredAt, Hits, ScannedVersions, Attributed, CveWindows.Means, BranchFix.Meets;
    if e :| EnteredAt(EntriesOf(o, poms), key, v, e) { assert StatedBy(o, poms, key, v, e.pom); }
  }
}
