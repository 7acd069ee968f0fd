/**
 * What an OSV range means (lib/osv-db.js:105-176), said with the version comparison and the version
 * "0" alone: events that tell a timeline are the stretches from each introduction to the end after it.
 */
module OsvMeaning {
  import opened Basics
  import opened Orders
  import opened OsvRange
  import BranchFix
  import OsvBranchFix
  import OsvIndex

  // ---- Timelines ----

  /**
   * introduced, end, introduced, end, ... each later than the one before it; only the first may be
   * `zero`, the beginning of all versions.
   */
  ghost predicate IsTimeline<V>(sc: Scale<V>, s: seq<Event<V>>) {
    && (forall i | 0 <= i < |s| :: s[i].kind == Introduced <==> i % 2 == 0)
    && (forall i, j | 0 <= i < j < |s| :: s[j].at != sc.zero && (s[i].at == sc.zero || sc.cmp(s[i].at, s[j].at) < 0))
  }

  /** The record's event objects are those of the timeline, in any order and number, and limits. */
  ghost predicate Records<V(!new)>(raw: seq<RawEvent<V>>, s: seq<Event<V>>) {
    && (forall e :: e in s <==> [(Is(e.kind), e.at)] in raw)
    && (forall r: RawEvent<V> | r in raw :: |r| == 1)
  }

  /** The version is at or past the i-th introduction and before its end: not yet fixed, or not past the last one affected. */
  predicate InStretch<V(==)>(sc: Scale<V>, v: V, s: seq<Event<V>>, i: nat) {
    && i < |s| && s[i].kind == Introduced
    && (s[i].at == sc.zero || sc.cmp(v, s[i].at) >= 0)
    && (i + 1 < |s| ==> if s[i + 1].kind == Fixed then sc.cmp(v, s[i + 1].at) < 0 else sc.cmp(v, s[i + 1].at) <= 0)
  }

  /** No limit is stated, or one is unbounded or still ahead. */
  ghost predicate LimitsAllow<V(!new)>(sc: Scale<V>, v: V, raw: seq<RawEvent<V>>) {
    (exists l :: [(Limit, l)] in raw) ==> exists l :: [(Limit, l)] in raw && (l == sc.star || (l != sc.zero && sc.cmp(v, l) < 0))
  }

  ghost predicate Timely<V(!new)>(sc: Scale<V>, ok: V -> bool, s: seq<Event<V>>) {
    IsTimeline(sc, s) && RanksOn(sc.cmp, ok) && forall e | e in s :: e.at == sc.zero || ok(e.at)
  }

  lemma TimelineAlternates<V(!new)>(sc: Scale<V>, v: V, s: seq<Event<V>>)
    requires IsTimeline(sc, s) && v != sc.zero
    ensures OsvBranchFix.Alternating(sc, s)
    ensures forall i: nat :: OsvBranchFix.InInterval(sc, v, s, i) <==> InStretch(sc, v, s, i)
  {
  }

  lemma {:induction false} EventsRecorded<V(!new)>(raw: seq<RawEvent<V>>, e: Event<V>)
    requires forall r: RawEvent<V> | r in raw :: |r| == 1
    ensures e in EventsOf(raw) <==> [(Is(e.kind), e.at)] in raw
  {
    if raw != [] {
      var rest, r := raw[..|raw| - 1], raw[|raw| - 1];
      assert raw == rest + [r] && r in raw;
      assert forall x | x in rest :: x in raw;
      EventsRecorded(rest, e);
      OneField(r);
      hide EventOf, ValueOf;
      assert r == [r[0]];
    }
  }

  lemma {:induction false} LimitsRecorded<V(!new)>(raw: seq<RawEvent<V>>, l: V)
    requires forall r: RawEvent<V> | r in raw :: |r| == 1
    ensures l in LimitsOf(raw) <==> [(Limit, l)] in raw
  {
    if raw != [] {
      var rest, r := raw[..|raw| - 1], raw[|raw| - 1];
      assert raw == rest + [r] && r in raw;
      assert forall x | x in rest :: x in raw;
      LimitsRecorded(rest, l);
      OneField(r);
      hide EventOf, ValueOf;
      assert r == [r[0]];
    }
  }

  lemma OneField<V>(r: RawEvent<V>)
    requires |r| == 1
    ensures ValueOf(r, Limit) == if r[0].0 == Limit then Some(r[0].1) else None
    ensures EventOf(r) == if r[0].0.Is? then Some(Event(r[0].0.kind, r[0].1)) else None
  {
    assert r[1..] == [];
    forall k ensures ValueOf(r, k) == if r[0].0 == k then Some(r[0].1) else None { }
    match r[0].0
    case Is(Introduced) =>
    case Is(Fixed) =>
    case Is(LastAffected) =>
    case Limit =>
    case Other =>
  }

  /** A range whose events tell a timeline affects exactly the versions in one of its stretches. */
  lemma TimelineSays<V(!new)>(sc: Scale<V>, ok: V -> bool, v: V, range: Range<V>, s: seq<Event<V>>)
    requires Timely(sc, ok, s) && Records(range.events, s) && v != sc.zero && ok(v)
    ensures RangeSays(sc, v, range) <==> !range.isGit && LimitsAllow(sc, v, range.events) && exists i: nat :: InStretch(sc, v, s, i)
  {
    var events := EventsOf(range.events);
    forall e ensures e in events <==> e in s { EventsRecorded(range.events, e); }
    SaysAffectedReadsASet(sc, v, events, s);
    RangeSaysByGreatest(sc, ok, v, range);
    LimitsPlain(sc, v, range.events);
    TimelineAlternates(sc, v, s);
    assert OsvBranchFix.Placed(sc, ok, v, s);
    hide SaysAffected, RangeSays, WithinLimits, LimitsAllow, OsvBranchFix.InInterval, InStretch, IsTimeline, RanksOn;
    if SaysAffected(sc, v, s) {
      var i := OsvBranchFix.AffectedInInterval(sc, ok, v, s);
      assert InStretch(sc, v, s, i);
    }
    if i: nat :| InStretch(sc, v, s, i) { OsvBranchFix.IntervalAffects(sc, ok, v, s, i); }
  }

  lemma LimitsPlain<V(!new)>(sc: Scale<V>, v: V, raw: seq<RawEvent<V>>)
    requires v != sc.zero && forall r: RawEvent<V> | r in raw :: |r| == 1
    ensures WithinLimits(sc, v, LimitsOf(raw)) <==> LimitsAllow(sc, v, raw)
  {
    var limits := LimitsOf(raw);
    forall l ensures l in limits <==> [(Limit, l)] in raw { LimitsRecorded(raw, l); }
    if limits != [] { assert limits[0] in limits; }
  }

  lemma NoLimits<V(!new)>(sc: Scale<V>, v: V, raw: seq<RawEvent<V>>)
    requires (forall r: RawEvent<V> | r in raw :: |r| == 1) && forall l :: [(Limit, l)] !in raw
    ensures LimitsOf(raw) == []
  {
    hide LimitsOf;
    NoElements(LimitsOf(raw));
    forall l ensures l !in LimitsOf(raw) { LimitsRecorded(raw, l); }
  }

  /** The version "0" itself is affected exactly when the first introduction is at "0". */
  lemma ZeroIsTheBeginning<V(!new)>(sc: Scale<V>, ok: V -> bool, range: Range<V>, s: seq<Event<V>>)
    requires Timely(sc, ok, s) && Records(range.events, s) && !range.isGit && forall l :: [(Limit, l)] !in range.events
    ensures RangeSays(sc, sc.zero, range) <==> s != [] && s[0].at == sc.zero
  {
    hide SaysAffected, RanksOn, EventsOf, LimitsOf, IsTimeline;
    var events, v := EventsOf(range.events), sc.zero;
    forall e ensures e in events <==> e in s { EventsRecorded(range.events, e); }
    SaysAffectedReadsASet(sc, v, events, s);
    RangeSaysByGreatest(sc, ok, v, range);
    NoLimits(sc, v, range.events);
    ZeroDecides(sc, s);
  }

  lemma ZeroDecides<V(!new)>(sc: Scale<V>, s: seq<Event<V>>)
    requires IsTimeline(sc, s)
    ensures SaysAffected(sc, sc.zero, s) <==> s != [] && s[0].at == sc.zero
  {
    hide CmpEvent, IsTimeline, Fires;
    forall e | e in s ensures Fires(sc, sc.zero, e) <==> e == s[0] && s[0].at == sc.zero {
      var i :| 0 <= i < |s| && s[i] == e;
      OnlyFirstAtZero(sc, s, i);
    }
    if s != [] {
      FirstIntroduces(sc, s);
      if s[0].at == sc.zero {
        EventTies(sc, s[0]);
        assert Decides(sc, sc.zero, s, s[0]);
      }
    }
  }

  lemma FirstIntroduces<V(!new)>(sc: Scale<V>, s: seq<Event<V>>)
    requires IsTimeline(sc, s) && s != []
    ensures s[0].kind == Introduced
  {
  }

  lemma NoElements<V(!new)>(s: seq<V>)
    ensures s == [] || exists x :: x in s
  {
    if s != [] { assert s[0] in s; }
  }

  lemma OnlyFirstAtZero<V(!new)>(sc: Scale<V>, s: seq<Event<V>>, i: nat)
    requires IsTimeline(sc, s) && i < |s|
    ensures Fires(sc, sc.zero, s[i]) <==> s[i] == s[0] && s[0].at == sc.zero
  {
    if i > 0 { assert s[0] == s[0] && s[i].at != sc.zero; }
  }

  lemma EventTies<V(!new)>(sc: Scale<V>, e: Event<V>)
    requires e.at == sc.zero
    ensures CmpEvent(sc, e, e) == 0
  {
  }

  // ---- The fix a timeline states ----

  /** One object for each event, in the order given. */
  function Objects<V>(p: seq<Event<V>>): seq<RawEvent<V>> {
    seq(|p|, i requires 0 <= i < |p| => [(Is(p[i].kind), p[i].at)])
  }

  lemma {:induction false} ObjectsRead<V(!new)>(p: seq<Event<V>>)
    ensures OsvBranchFix.FirstFields(Objects(p)) == p
  {
    if p != [] {
      var raw, most := Objects(p), p[..|p| - 1];
      ObjectsRead(most);
      assert raw[..|raw| - 1] == Objects(most);
      assert p == most + [p[|p| - 1]];
    }
  }

  lemma ByAtRanks<V(!new)>(sc: Scale<V>, ok: V -> bool)
    requires RanksOn(sc.cmp, ok)
    ensures RanksOn(OsvBranchFix.ByAt(sc), Rankable(sc, ok))
  {
    var c, okv, at, oke := ByVersion(sc), (x: V) => x == sc.zero || ok(x), OsvBranchFix.ByAt(sc), Rankable(sc, ok);
    CmpVRanks(sc, ok);
    forall x, y | oke(x) && oke(y) ensures Sign(at(x, y)) == -Sign(at(y, x)) {
      assert okv(x.at) && okv(y.at) && Sign(c(x.at, y.at)) == -Sign(c(y.at, x.at));
    }
    forall x, y, z | oke(x) && oke(y) && oke(z) && at(x, y) <= 0 && at(y, z) <= 0 ensures at(x, z) <= 0 {
      assert okv(x.at) && okv(y.at) && okv(z.at) && c(x.at, y.at) <= 0 && c(y.at, z.at) <= 0;
    }
  }

  /** Sorting the events of a timeline yields the timeline. */
  lemma SortedIsTimeline<V(!new)>(sc: Scale<V>, ok: V -> bool, p: seq<Event<V>>, s: seq<Event<V>>)
    requires RanksOn(sc.cmp, ok) && (forall e | e in s :: e.at == sc.zero || ok(e.at)) && OsvBranchFix.Alternating(sc, s)
    requires multiset(p) == multiset(s) && forall e :: e in p <==> e in s
    ensures SortBy(OsvBranchFix.ByAt(sc), p) == s
  {
    ByAtRanks(sc, ok);
    var at := OsvBranchFix.ByAt(sc);
    hide RanksOn, SortBy, CmpV;
    SortBySortedOn(at, Rankable(sc, ok), p);
    assert forall i, j | 0 <= i < j < |s| :: at(s[i], s[j]) < 0;
    SortedIsUnique(at, Rankable(sc, ok), SortBy(at, p), s);
  }

  /**
   * From the events of a timeline, in any order: inside a stretch that ends, the fix is its end, met
   * at a fixed version or past a last affected one; elsewhere there is none.
   */
  lemma TimelineFix<V(!new)>(sc: Scale<V>, ok: V -> bool, v: V, p: seq<Event<V>>, s: seq<Event<V>>)
    requires Timely(sc, ok, s) && multiset(p) == multiset(s) && v != sc.zero && ok(v)
    ensures var fix := OsvBranchFix.FixFromEvents(sc, v, Objects(p));
            && (forall i: nat | InStretch(sc, v, s, i) ::
                  fix == if i + 1 == |s| then None
                         else if s[i + 1].kind == Fixed then Some(BranchFix.FixedIn(s[i + 1].at)) else Some(BranchFix.After(s[i + 1].at)))
            && ((forall i: nat :: !InStretch(sc, v, s, i)) ==> fix == None)
  {
    hide InStretch, OsvBranchFix.FixWalk, IsTimeline, RanksOn;
    forall e ensures e in p <==> e in s { assert e in p <==> e in multiset(p); assert e in s <==> e in multiset(s); }
    ObjectsRead(p);
    TimelineAlternates(sc, v, s);
    SortedIsTimeline(sc, ok, p, s);
    FixOfTimeline(sc, ok, v, s);
  }

  lemma FixOfTimeline<V(!new)>(sc: Scale<V>, ok: V -> bool, v: V, s: seq<Event<V>>)
    requires Timely(sc, ok, s) && v != sc.zero && ok(v)
    ensures var fix := OsvBranchFix.FixWalk(sc, v, s, None);
            && (forall i: nat | InStretch(sc, v, s, i) ::
                  fix == if i + 1 == |s| then None
                         else if s[i + 1].kind == Fixed then Some(BranchFix.FixedIn(s[i + 1].at)) else Some(BranchFix.After(s[i + 1].at)))
            && ((forall i: nat :: !InStretch(sc, v, s, i)) ==> fix == None)
  {
    TimelineAlternates(sc, v, s);
    assert OsvBranchFix.Placed(sc, ok, v, s);
    hide OsvBranchFix.FixWalk, OsvBranchFix.InInterval, OsvBranchFix.Alternating, OsvBranchFix.Placed, IsTimeline, RanksOn;
    var fix := OsvBranchFix.FixWalk(sc, v, s, None);
    if fix.Some? {
      var j := OsvBranchFix.FixIsAnEnd(sc, v, s);
      assert InStretch(sc, v, s, j);
      forall i: nat | InStretch(sc, v, s, i) ensures i == j { OsvBranchFix.OneInterval(sc, ok, v, s, i, j); }
    } else {
      forall i: nat | InStretch(sc, v, s, i) ensures i + 1 == |s| {
        StretchIndex(sc, v, s, i);
        if i + 1 < |s| { OsvBranchFix.EndIsTheFix(sc, ok, v, s, i); }
      }
    }
  }

  lemma StretchIndex<V>(sc: Scale<V>, v: V, s: seq<Event<V>>, i: nat)
    requires InStretch(sc, v, s, i)
    ensures i < |s|
  {
  }

  // ---- Events at one version, and event objects with several fields ----

  predicate DistinctKeys<V>(e: RawEvent<V>) {
    forall i, j | 0 <= i < j < |e| :: e[i].0 != e[j].0
  }

  lemma {:induction false} FieldHas<V>(e: RawEvent<V>, k: Key, x: V)
    requires DistinctKeys(e) && (k, x) in e
    ensures ValueOf(e, k) == Some(x)
  {
    if e[0].0 != k {
      assert e == [e[0]] + e[1..];
      FieldHas(e[1..], k, x);
    } else {
      var i :| 0 <= i < |e| && e[i] == (k, x);
    }
  }

  lemma {:induction false} FieldLacks<V>(e: RawEvent<V>, k: Key)
    requires forall i | 0 <= i < |e| :: e[i].0 != k
    ensures ValueOf(e, k) == None
  {
    if e != [] { FieldLacks(e[1..], k); }
  }

  /** A limit hides whatever else the object holds; then an introduction goes first, then a fix. */
  lemma FieldsInTurn<V(!new)>(e: RawEvent<V>)
    requires DistinctKeys(e)
    ensures forall x | (Limit, x) in e :: EventsOf([e]) == [] && LimitsOf([e]) == [x]
    ensures (forall x :: (Limit, x) !in e) ==>
              && LimitsOf([e]) == []
              && (forall x | (Is(Introduced), x) in e :: EventsOf([e]) == [Event(Introduced, x)])
              && ((forall x :: (Is(Introduced), x) !in e) ==>
                    && (forall x | (Is(Fixed), x) in e :: EventsOf([e]) == [Event(Fixed, x)])
                    && ((forall x :: (Is(Fixed), x) !in e) ==> forall x | (Is(LastAffected), x) in e :: EventsOf([e]) == [Event(LastAffected, x)]))
  {
    assert [e][..0] == [];
    forall k, x | (k, x) in e ensures ValueOf(e, k) == Some(x) { FieldHas(e, k, x); }
    forall k | forall x :: (k, x) !in e ensures ValueOf(e, k) == None {
      forall i | 0 <= i < |e| ensures e[i].0 != k { assert e[i] == (e[i].0, e[i].1); }
      FieldLacks(e, k);
    }
    hide ValueOf;
  }

  /** Introduced and fixed at one version is nowhere affected; introduced and last affected there, only there. */
  lemma PairAtOneVersion<V(!new)>(sc: Scale<V>, ok: V -> bool, v: V, x: V, end: Kind, first: bool)
    requires RanksOn(sc.cmp, ok) && ok(x) && ok(v) && v != sc.zero && x != sc.zero && end != Introduced
    ensures var events := if first then [Event(Introduced, x), Event(end, x)] else [Event(end, x), Event(Introduced, x)];
            SaysAffected(sc, v, events) <==> end == LastAffected && sc.cmp(v, x) == 0
  {
    var start, stop := Event(Introduced, x), Event(end, x);
    var events := if first then [start, stop] else [stop, start];
    assert forall e :: e in events <==> e == start || e == stop;
    assert Sign(sc.cmp(x, x)) == -Sign(sc.cmp(x, x)) && CmpV(sc, x, x) == 0;
    if end == LastAffected && sc.cmp(v, x) == 0 { assert Decides(sc, v, events, start); }
    if SaysAffected(sc, v, events) {
      var e :| Decides(sc, v, events, e);
      assert e == start && CmpEvent(sc, stop, start) > 0;
    }
  }

  // ---- Matching ----

  /** Within its limits, the version lies in a stretch of the timeline the range's events tell. */
  ghost predicate Says(sc: OsvIndex.Scale, v: string, range: Range<string>) {
    && !range.isGit && LimitsAllow(sc, v, range.events)
    && exists s, i: nat :: IsTimeline(sc, s) && Records(range.events, s) && InStretch(sc, v, s, i)
  }

  ghost predicate TellsTimeline(sc: OsvIndex.Scale, ok: string -> bool, range: Range<string>) {
    exists s :: Timely(sc, ok, s) && Records(range.events, s)
  }

  lemma SaysIsRangeSays(sc: OsvIndex.Scale, ok: string -> bool, v: string, range: Range<string>)
    requires TellsTimeline(sc, ok, range) && v != sc.zero && ok(v)
    ensures RangeSays(sc, v, range) <==> Says(sc, v, range)
  {
    var s :| Timely(sc, ok, s) && Records(range.events, s);
    TimelineSays(sc, ok, v, range, s);
    hide RangeSays, LimitsAllow, RanksOn, InStretch;
    if t, i: nat :| IsTimeline(sc, t) && Records(range.events, t) && InStretch(sc, v, t, i) {
      SameTimeline(sc, ok, range.events, s, t);
      TimelineSays(sc, ok, v, range, t);
    }
  }

  lemma SameTimeline(sc: OsvIndex.Scale, ok: string -> bool, raw: seq<RawEvent<string>>, s: seq<Event<string>>, t: seq<Event<string>>)
    requires Timely(sc, ok, s) && Records(raw, s) && IsTimeline(sc, t) && Records(raw, t)
    ensures Timely(sc, ok, t)
  {
    hide RanksOn, IsTimeline;
  }

  /** A live advisory lists the version for the coordinate, or has a range for it whose timeline covers the version. */
  ghost predicate AdvisedByTimelines(lower: OsvIndex.Fold, sc: OsvIndex.Scale, eco: string, advisories: seq<OsvIndex.Advisory>,
                                     d: OsvIndex.Dep, t: OsvIndex.Triple)
  {
    && d.isMaven && !d.unmanaged && t.coord == d.coord && t.version in (if d.versions != [] then d.versions else [d.version])
    && t.version != "" && (forall before, after :: t.version != before + "${" + after)
    && exists a, e :: a in advisories && !a.withdrawn && a.id == t.id && e in a.affected
                      && e.ecosystem == eco && e.name != "" && lower(e.name) == lower(d.coord)
                      && (t.version in e.versions || exists r :: r in e.ranges && Says(sc, t.version, r))
  }

  lemma ConcreteSays(v: string)
    ensures OsvIndex.Concrete(v) <==> v != "" && forall before, after :: v != before + "${" + after
  {
    if i :| 0 <= i < |v| - 1 && v[i] == '$' && v[i + 1] == '{' { assert v == v[..i] + "${" + v[i + 2..]; }
    if before, after :| v == before + "${" + after { assert v[|before|] == '$' && v[|before| + 1] == '{'; }
  }

  lemma AdvisedIsByTimelines(lower: OsvIndex.Fold, sc: OsvIndex.Scale, ok: string -> bool, eco: string, advisories: seq<OsvIndex.Advisory>,
                             d: OsvIndex.Dep, t: OsvIndex.Triple)
    requires forall a, e, r | a in advisories && e in a.affected && r in e.ranges :: TellsTimeline(sc, ok, r)
    requires t.version != sc.zero && ok(t.version)
    ensures OsvIndex.Advised(lower, OsvIndex.VulnAffects(sc), eco, advisories, d, t) <==> AdvisedByTimelines(lower, sc, eco, advisories, d, t)
  {
    forall a, e | a in advisories && e in a.affected
      ensures OsvIndex.VulnAffects(sc)(t.version, e) <==> t.version in e.versions || exists r :: r in e.ranges && Says(sc, t.version, r)
    {
      forall r | r in e.ranges ensures RangeSays(sc, t.version, r) <==> Says(sc, t.version, r) {
        SaysIsRangeSays(sc, ok, t.version, r);
      }
      EntryAffectsByRange(sc, t.version, e);
    }
    ConcreteSays(t.version);
    hide Says, TellsTimeline, OsvIndex.EntryAffects, OsvIndex.Concrete;
  }

  lemma EntryAffectsByRange(sc: OsvIndex.Scale, v: string, e: OsvIndex.Entry)
    ensures OsvIndex.EntryAffects(sc, v, e) <==> v in e.versions || exists r :: r in e.ranges && RangeSays(sc, v, r)
  {
    hide RangeSays;
    if r :| r in e.ranges && RangeSays(sc, v, r) {
      var i :| 0 <= i < |e.ranges| && e.ranges[i] == r;
    }
  }

  /**
   * The program's own matching, where the ranges tell timelines: each finding once, and at every
   * version the order ranks exactly those of live advisories whose entry for the package lists the
   * version or covers it by the timeline of one of its ranges.
   */
  method MatchByTimelines(lower: OsvIndex.Fold, sc: OsvIndex.Scale, ghost ok: string -> bool, eco: string,
                          advisories: seq<OsvIndex.Advisory>, deps: seq<OsvIndex.Dep>)
    returns (out: seq<OsvIndex.Triple>)
    requires forall a, e, r | a in advisories && e in a.affected && r in e.ranges :: TellsTimeline(sc, ok, r)
    ensures Distinct(out)
    ensures forall t: OsvIndex.Triple | t.version != sc.zero && ok(t.version) ::
              t in out <==> exists d :: d in deps && AdvisedByTimelines(lower, sc, eco, advisories, d, t)
  {
    hide OsvIndex.Advised, AdvisedByTimelines, TellsTimeline, OsvIndex.AdvisedByEvents;
    out := OsvIndex.MatchOsvDbDeps(lower, sc, ok, eco, advisories, deps);
    forall d, t: OsvIndex.Triple | t.version != sc.zero && ok(t.version)
      ensures OsvIndex.Advised(lower, OsvIndex.VulnAffects(sc), eco, advisories, d, t) <==> AdvisedByTimelines(lower, sc, eco, advisories, d, t)
    {
      AdvisedIsByTimelines(lower, sc, ok, eco, advisories, d, t);
    }
  }
}
