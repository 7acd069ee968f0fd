/**
 * Where the Maven order of lib/maven-version.js:29-135 meets the code that relies on ranking:
 * OSV ranges (lib/osv-db.js:105-141) and the strictest fix (lib/maven-version.js:304-312,
 * lib/commercial-support.js:30-36).
 */
module MavenRanges {
  import opened Basics
  import opened Orders
  import opened MavenVersion
  import opened MavenOrder
  import opened MavenParse
  import opened MavenSpelling
  import MavenText
  import BranchFix
  import OsvRange
  import OsvBranchFix
  import OsvMeaning

  type MavenFix = BranchFix.Fix<seq<Segment>>

  /** For one version, meeting the stricter of two fixes is meeting both. */
  predicate IsSafe<V>(cmp: (V, V) -> int, v: V, a: BranchFix.Fix<V>, b: BranchFix.Fix<V>) {
    BranchFix.Meets(cmp, v, BranchFix.Stricter(cmp, Some(a), Some(b))) <==>
    BranchFix.Meets(cmp, v, Some(a)) && BranchFix.Meets(cmp, v, Some(b))
  }

  lemma OrderlyIsSafe(collate: Collation, v: seq<Segment>, a: MavenFix, b: MavenFix)
    requires TotalPreorder(collate) && Orderly(v) && Orderly(a.v) && Orderly(b.v)
    ensures IsSafe(Comparator(collate), v, a, b)
  {
    hide RanksOn, Orderly, Compare;
    OrderlyRanks(collate);
    BranchFix.StricterIsConjunction(Comparator(collate), (x: seq<Segment>) => Orderly(x), v, a, b);
  }

  /** An unorderly version passes as upgraded to the stricter of two fixes without meeting the other. */
  lemma UnorderlyIsUnsafe(collate: Collation, v: seq<Segment>) returns (a: MavenFix, b: MavenFix)
    requires TotalPreorder(collate) && !Orderly(v)
    ensures Orderly(a.v) && Orderly(b.v) && !IsSafe(Comparator(collate), v, a, b)
    ensures BranchFix.Meets(Comparator(collate), v, BranchFix.Stricter(Comparator(collate), Some(a), Some(b)))
    ensures !BranchFix.Meets(Comparator(collate), v, Some(a))
  {
    var y, z := CycleWith(collate, v);
    CompareAntisymmetric(collate, v, z);
    a, b := BranchFix.FixedIn(y), BranchFix.FixedIn(z);
  }

  /** One number can stand for all the fixes of a version exactly when the version is orderly. */
  lemma SafeIffOrderly(collate: Collation, v: seq<Segment>)
    requires TotalPreorder(collate)
    ensures Orderly(v) <==> forall a: MavenFix, b: MavenFix | Orderly(a.v) && Orderly(b.v) :: IsSafe(Comparator(collate), v, a, b)
  {
    if Orderly(v) {
      forall a: MavenFix, b: MavenFix | Orderly(a.v) && Orderly(b.v) ensures IsSafe(Comparator(collate), v, a, b) {
        OrderlyIsSafe(collate, v, a, b);
      }
    } else {
      var a, b := UnorderlyIsUnsafe(collate, v);
    }
  }

  // ---- The same on version texts ----

  /** The program's own comparison ranks the texts of orderly versions. */
  lemma OrderlyTextsRank(collate: Collation)
    requires TotalPreorder(collate)
    ensures RanksOn(TextComparator(collate), (v: string) => IsOrderlyText(v))
  {
    hide ParseMavenVersion, Orderly, Compare;
    OrderlyRanks(collate);
    var cmp, segs := TextComparator(collate), Comparator(collate);
    assert forall a, b :: cmp(a, b) == segs(ParseMavenVersion(a), ParseMavenVersion(b));
  }

  type TextFix = BranchFix.Fix<string>

  function ParsedFix(f: TextFix): MavenFix {
    if f.FixedIn? then BranchFix.FixedIn(ParseMavenVersion(f.v)) else BranchFix.After(ParseMavenVersion(f.v))
  }

  lemma SafeAsParsed(collate: Collation, v: string, a: TextFix, b: TextFix)
    ensures IsSafe(TextComparator(collate), v, a, b) <==>
            IsSafe(Comparator(collate), ParseMavenVersion(v), ParsedFix(a), ParsedFix(b))
  {
    hide ParseMavenVersion, Compare;
  }

  /** The strictest fix is sound advice to the users of a version exactly when its text is orderly. */
  lemma TextSafeIffOrderly(collate: Collation, v: string)
    requires TotalPreorder(collate) && Extends(collate)
    ensures IsOrderlyText(v) <==>
            forall a: TextFix, b: TextFix | IsOrderlyText(a.v) && IsOrderlyText(b.v) :: IsSafe(TextComparator(collate), v, a, b)
  {
    hide ParseMavenVersion, Orderly, Compare, IsSafe;
    if IsOrderlyText(v) {
      forall a: TextFix, b: TextFix | IsOrderlyText(a.v) && IsOrderlyText(b.v)
        ensures IsSafe(TextComparator(collate), v, a, b)
      {
        SafeAsParsed(collate, v, a, b);
        OrderlyIsSafe(collate, ParseMavenVersion(v), ParsedFix(a), ParsedFix(b));
      }
    } else {
      var t, u := TextCycleWith(collate, v);
      CompareAntisymmetric(collate, ParseMavenVersion(u), ParseMavenVersion(v));
      OlderFixIsMissed(TextComparator(collate), v, t, u);
    }
  }

  lemma OlderFixIsMissed<V>(cmp: (V, V) -> int, v: V, x: V, y: V)
    requires cmp(v, x) < 0 && cmp(x, y) <= 0 && cmp(v, y) >= 0
    ensures !IsSafe(cmp, v, BranchFix.FixedIn(x), BranchFix.FixedIn(y))
  {
  }

  /** One number stands for all the fixes of a component, on orderly versions. */
  lemma TextStrictestIsAll(collate: Collation, v: string, fixes: seq<TextFix>)
    requires TotalPreorder(collate) && IsOrderlyText(v) && forall f | f in fixes :: IsOrderlyText(f.v)
    ensures var cmp := TextComparator(collate);
            fixes != [] ==> (BranchFix.Meets(cmp, v, BranchFix.Strictest(cmp, fixes)) <==> BranchFix.MeetsAll(cmp, v, fixes))
  {
    hide RanksOn, IsOrderlyText, CompareStrings, BranchFix.Meets, BranchFix.MeetsAll, BranchFix.Strictest;
    OrderlyTextsRank(collate);
    BranchFix.StrictestIsAll(TextComparator(collate), (x: string) => IsOrderlyText(x), v, fixes);
  }

  function TextScale(collate: Collation): OsvRange.Scale<string> {
    OsvRange.Scale(TextComparator(collate), "0", "*")
  }

  /** On orderly version texts, and "0", a range says affected as the schema defines it. */
  lemma MavenEventsDecide(collate: Collation, v: string, range: OsvRange.Range<string>)
    requires TotalPreorder(collate)
    requires forall e | e in OsvRange.EventsOf(range.events) :: e.at == "0" || IsOrderlyText(e.at)
    ensures OsvRange.RangeSays(TextScale(collate), v, range) <==>
            && !range.isGit
            && OsvRange.WithinLimits(TextScale(collate), v, OsvRange.LimitsOf(range.events))
            && OsvRange.SaysAffected(TextScale(collate), v, OsvRange.EventsOf(range.events))
  {
    hide OsvRange.RangeSays, OsvRange.SaysAffected, OsvRange.WithinLimits, RanksOn;
    OrderlyTextsRank(collate);
    OsvRange.RangeSaysByGreatest(TextScale(collate), (x: string) => IsOrderlyText(x), v, range);
  }

  /** The version is from the i-th introduction on, and before its fix or not past the last one affected. */
  predicate InTextStretch(collate: Collation, v: string, s: seq<OsvRange.Event<string>>, i: nat) {
    && i < |s| && s[i].kind == OsvRange.Introduced
    && (s[i].at == "0" || CompareStrings(collate, v, s[i].at) >= 0)
    && (i + 1 < |s| ==>
          if s[i + 1].kind == OsvRange.Fixed then CompareStrings(collate, v, s[i + 1].at) < 0 else CompareStrings(collate, v, s[i + 1].at) <= 0)
  }

  /** No limit is stated, or `*` is, or one above the version. */
  ghost predicate InTextLimits(collate: Collation, v: string, raw: seq<OsvRange.RawEvent<string>>) {
    (exists l :: [(OsvRange.Limit, l)] in raw) ==>
      exists l :: [(OsvRange.Limit, l)] in raw && (l == "*" || (l != "0" && CompareStrings(collate, v, l) < 0))
  }

  lemma TextLimits(collate: Collation, v: string, raw: seq<OsvRange.RawEvent<string>>)
    ensures OsvMeaning.LimitsAllow(TextScale(collate), v, raw) <==> InTextLimits(collate, v, raw)
  {
    hide CompareStrings;
  }

  /** With the Maven comparison, a range whose events tell a timeline of orderly versions affects exactly those of its stretches. */
  lemma MavenTimelineSays(collate: Collation, v: string, range: OsvRange.Range<string>, s: seq<OsvRange.Event<string>>)
    requires TotalPreorder(collate) && IsOrderlyText(v) && v != "0"
    requires OsvMeaning.IsTimeline(TextScale(collate), s) && OsvMeaning.Records(range.events, s)
    requires forall e | e in s :: e.at == "0" || IsOrderlyText(e.at)
    ensures OsvRange.RangeSays(TextScale(collate), v, range) <==>
            && !range.isGit
            && InTextLimits(collate, v, range.events)
            && exists i: nat :: InTextStretch(collate, v, s, i)
  {
    hide OsvRange.RangeSays, OsvMeaning.IsTimeline, OsvMeaning.Records, OsvMeaning.LimitsAllow, InTextLimits, RanksOn, CompareStrings, IsOrderlyText;
    OrderlyTextsRank(collate);
    TextLimits(collate, v, range.events);
    OsvMeaning.TimelineSays(TextScale(collate), (x: string) => IsOrderlyText(x), v, range, s);
    assert forall i: nat :: OsvMeaning.InStretch(TextScale(collate), v, s, i) <==> InTextStretch(collate, v, s, i);
  }

  /** On orderly version texts, and "0", a fix read from events is the end of the interval that holds the version. */
  lemma MavenFixMatchesRange(collate: Collation, v: string, raw: seq<OsvRange.RawEvent<string>>)
    requires TotalPreorder(collate) && OsvBranchFix.Plain(raw) && (v == "0" || IsOrderlyText(v))
    requires forall e | e in OsvRange.EventsOf(raw) :: e.at == "0" || IsOrderlyText(e.at)
    requires OsvBranchFix.Alternating(TextScale(collate), SortBy(OsvBranchFix.ByAt(TextScale(collate)), OsvRange.EventsOf(raw)))
    ensures var sc := TextScale(collate); var s := SortBy(OsvBranchFix.ByAt(sc), OsvRange.EventsOf(raw));
            && (OsvRange.SaysAffected(sc, v, OsvRange.EventsOf(raw)) <==> exists i: nat :: OsvBranchFix.InInterval(sc, v, s, i))
            && (forall i: nat | OsvBranchFix.InInterval(sc, v, s, i) ::
                  OsvBranchFix.FixFromEvents(sc, v, raw) == if i + 1 < |s| then Some(OsvBranchFix.EndOf(s[i + 1])) else None)
            && (OsvBranchFix.FixFromEvents(sc, v, raw).Some? ==> OsvRange.SaysAffected(sc, v, OsvRange.EventsOf(raw)))
  {
    hide OsvRange.SaysAffected, OsvBranchFix.InInterval, OsvBranchFix.FixFromEvents, OsvBranchFix.Alternating, RanksOn, SortBy, IsOrderlyText;
    OrderlyTextsRank(collate);
    OsvBranchFix.BranchFixMatchesRange(TextScale(collate), (x: string) => IsOrderlyText(x), v, raw);
  }

  /** lib/maven-version.js:141-148: a bound counts when it begins with a digit and is not just 0. */
  predicate IsVersionLike(bound: string) {
    var t := TrimEnd(TrimStart(bound));
    t != "" && IsDigit(t[0]) && t != "0"
  }

  predicate IsBlank(version: string) {
    ParseMavenVersion(version) == []
  }

  /** How the program compares and reads versions. */
  function MavenScheme(collate: Collation): BranchFix.Scheme<string> {
    BranchFix.Scheme(TextComparator(collate), (b: string) => IsVersionLike(b), (v: string) => IsBlank(v))
  }

  /** A bound counts when, white space aside, it begins with a digit and is more than a bare 0: no `*`, no `log4j-core*`. */
  lemma VersionLikeTexts(before: string, s: string, after: string)
    requires MavenText.IsBlankText(before) && MavenText.IsBlankText(after) && (s == "" || MavenText.IsItem(s))
    ensures IsVersionLike(before + s + after) <==> s != "" && '0' <= s[0] <= '9' && s != "0"
    ensures IsBlank(before + s + after) <==> s == ""
  {
    MavenText.PaddingTrims(before, s, after);
    if s != "" { SomethingIsParsed(s); }
  }

  lemma SomethingIsParsed(s: string)
    requires s != ""
    ensures SplitAll(Pieces(MavenParse.Lower(s), Dot)) != []
  {
    var ps := Pieces(MavenParse.Lower(s), Dot);
    assert ps != [] && SplitAll(ps) == SplitPiece(ps[0]) + SplitAll(ps[1..]);
  }

  lemma VersionLikeIsNotBlank(bound: string)
    requires IsVersionLike(bound)
    ensures !IsBlank(bound)
  {
    SomethingIsParsed(TrimEnd(TrimStart(bound)));
  }
}
