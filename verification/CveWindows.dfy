/**
 * lib/cve-download.js:144-170: a `changes` timeline expanded into plain affected windows that
 * isVersionAffected understands, without changing what the entry means.
 */
module CveWindows {
  import opened Basics
  import opened Orders
  import opened BranchFix

  datatype Change<V> = Change(at: V, affected: bool)

  /** A versions[] entry; `affected` is its own status, which defaults to affected. */
  datatype Entry<V> = Entry(version: V, affected: bool, lessThan: Option<V>, lessThanOrEqual: Option<V>, changes: seq<Change<V>>)

  function ByAt<V>(sch: Scheme<V>): (Change<V>, Change<V>) -> int {
    (a: Change<V>, b: Change<V>) => sch.cmp(a.at, b.at)
  }

  function Timeline<V>(sch: Scheme<V>, e: Entry<V>): seq<Change<V>> {
    SortBy(ByAt(sch), e.changes)
  }

  // ---- The periods between changes ----

  function StartOf<V>(e: Entry<V>, s: seq<Change<V>>, k: nat): V
    requires k <= |s|
  {
    if k == 0 then e.version else s[k - 1].at
  }

  predicate AffectedIn<V>(e: Entry<V>, s: seq<Change<V>>, k: nat)
    requires k <= |s|
  {
    if k == 0 then e.affected else s[k - 1].affected
  }

  function WindowOf<V>(e: Entry<V>, s: seq<Change<V>>, k: nat): Spec<V>
    requires k <= |s|
  {
    var start := Some(StartOf(e, s, k));
    if k < |s| then Spec(start, Affected, Some(s[k].at), None) else Spec(start, Affected, e.lessThan, e.lessThanOrEqual)
  }

  /** The windows of the first `n` periods, the affected ones only. */
  function Windows<V>(e: Entry<V>, s: seq<Change<V>>, n: nat): seq<Spec<V>>
    requires n <= |s| + 1
  {
    if n == 0 then []
    else Windows(e, s, n - 1) + if AffectedIn(e, s, n - 1) then [WindowOf(e, s, n - 1)] else []
  }

  method ExpandVersionChanges<V>(sch: Scheme<V>, e: Entry<V>) returns (r: Option<seq<Spec<V>>>)
    ensures r == if e.changes == [] then None else Some(Windows(e, Timeline(sch, e), |Timeline(sch, e)| + 1))
  {
    if e.changes == [] { return None; }
    var sorted := Timeline(sch, e);
    var windows: seq<Spec<V>> := [];
    var status, start := e.affected, e.version;
    for i := 0 to |sorted|
      invariant windows == Windows(e, sorted, i)
      invariant status == AffectedIn(e, sorted, i) && start == StartOf(e, sorted, i)
    {
      var c := sorted[i];
      if status { windows := windows + [Spec(Some(start), Affected, Some(c.at), None)]; }
      status, start := c.affected, c.at;
    }
    assert windows + [] == windows;
    if status { windows := windows + [Spec(Some(start), Affected, e.lessThan, e.lessThanOrEqual)]; }
    return Some(windows);
  }

  // ---- What the entry means ----

  /** How many changes have happened at version `v`. */
  function Period<V>(sch: Scheme<V>, s: seq<Change<V>>, v: V): (k: nat)
    ensures k <= |s|
  {
    if s == [] then 0
    else if sch.cmp(v, s[|s| - 1].at) >= 0 then |s|
    else Period(sch, s[..|s| - 1], v)
  }

  /** A version that is no version at all, such as "0", is no lower bound. */
  predicate InRange<V>(sch: Scheme<V>, e: Entry<V>, v: V) {
    && (sch.like(e.version) ==> sch.cmp(v, e.version) >= 0)
    && (Like(sch, e.lessThan) ==> sch.cmp(v, e.lessThan.value) < 0)
    && (Like(sch, e.lessThanOrEqual) ==> sch.cmp(v, e.lessThanOrEqual.value) <= 0)
  }

  /** `v` lies in the entry's range and the timeline says affected there. */
  predicate Means<V>(sch: Scheme<V>, e: Entry<V>, v: V) {
    InRange(sch, e, v) && AffectedIn(e, Timeline(sch, e), Period(sch, Timeline(sch, e), v))
  }

  predicate Accepted<V(==)>(sch: Scheme<V>, e: Entry<V>, v: V) {
    var s := Timeline(sch, e);
    exists w | w in Windows(e, s, |s| + 1) :: IsVersionAffected(sch, v, w)
  }

  predicate Bound<V>(sch: Scheme<V>, ok: V -> bool, b: Option<V>) {
    Like(sch, b) ==> ok(b.value)
  }

  /**
   * Changes at versions, an upper bound of some kind, and an order on the versions of the entry
   * and on all that are compared with it (`ok`).
   */
  ghost predicate Usable<V(!new)>(sch: Scheme<V>, ok: V -> bool, e: Entry<V>) {
    && RanksOn(sch.cmp, ok)
    && (forall v :: sch.like(v) ==> !sch.blank(v))
    && (forall c | c in e.changes :: sch.like(c.at) && ok(c.at))
    && (sch.like(e.version) ==> ok(e.version)) && (sch.like(e.version) || e.changes != [])
    && Bound(sch, ok, e.lessThan) && Bound(sch, ok, e.lessThanOrEqual)
    && (e.lessThan.Some? || e.lessThanOrEqual.Some?)
  }

  // ---- The windows cut the timeline at its changes ----

  lemma {:induction false} WindowsHas<V>(e: Entry<V>, s: seq<Change<V>>, n: nat, w: Spec<V>)
    requires n <= |s| + 1
    ensures w in Windows(e, s, n) <==> exists k: nat :: k < n && AffectedIn(e, s, k) && w == WindowOf(e, s, k)
  {
    if n > 0 { WindowsHas(e, s, n - 1, w); }
  }

  lemma ByAtRanks<V(!new)>(sch: Scheme<V>, ok: V -> bool)
    requires RanksOn(sch.cmp, ok)
    ensures RanksOn(ByAt(sch), (c: Change<V>) => ok(c.at))
  {
    var c := ByAt(sch);
    forall x: Change<V>, y: Change<V> | ok(x.at) && ok(y.at) ensures Sign(c(x, y)) == -Sign(c(y, x)) {
      assert Sign(sch.cmp(x.at, y.at)) == -Sign(sch.cmp(y.at, x.at));
    }
    forall x: Change<V>, y: Change<V>, z: Change<V> | ok(x.at) && ok(y.at) && ok(z.at) && c(x, y) <= 0 && c(y, z) <= 0 ensures c(x, z) <= 0 {
      assert sch.cmp(x.at, y.at) <= 0 && sch.cmp(y.at, z.at) <= 0;
    }
  }

  /** A timeline in order, of changes that can be compared. */
  ghost predicate InOrder<V>(sch: Scheme<V>, ok: V -> bool, s: seq<Change<V>>) {
    && (forall i, j | 0 <= i < j < |s| :: sch.cmp(s[i].at, s[j].at) <= 0)
    && (forall i | 0 <= i < |s| :: sch.like(s[i].at) && ok(s[i].at))
  }

  lemma TimelineFacts<V(!new)>(sch: Scheme<V>, ok: V -> bool, e: Entry<V>)
    requires Usable(sch, ok, e)
    ensures InOrder(sch, ok, Timeline(sch, e)) && (Timeline(sch, e) == [] <==> e.changes == [])
    ensures forall i | 0 <= i < |Timeline(sch, e)| :: Timeline(sch, e)[i] in e.changes
  {
    var s := Timeline(sch, e);
    ByAtRanks(sch, ok);
    SortBySortedOn(ByAt(sch), (c: Change<V>) => ok(c.at), e.changes);
    forall i, j | 0 <= i < j < |s| ensures sch.cmp(s[i].at, s[j].at) <= 0 {
      assert ByAt(sch)(s[i], s[j]) <= 0;
    }
    forall i | 0 <= i < |s| ensures sch.like(s[i].at) && ok(s[i].at) && s[i] in e.changes {
      assert s[i] in s;
    }
    if e.changes != [] { assert e.changes[0] in s; }
  }

  // ---- Chains of two comparisons ----

  lemma AtLeast<V(!new)>(sch: Scheme<V>, ok: V -> bool, v: V, x: V, y: V)
    requires RanksOn(sch.cmp, ok) && ok(v) && ok(x) && ok(y) && sch.cmp(v, x) >= 0 && sch.cmp(x, y) >= 0
    ensures sch.cmp(v, y) >= 0
  {
    assert Sign(sch.cmp(v, x)) == -Sign(sch.cmp(x, v)) && Sign(sch.cmp(x, y)) == -Sign(sch.cmp(y, x)) && Sign(sch.cmp(v, y)) == -Sign(sch.cmp(y, v));
  }

  lemma Below<V(!new)>(sch: Scheme<V>, ok: V -> bool, v: V, x: V, y: V)
    requires RanksOn(sch.cmp, ok) && ok(v) && ok(x) && ok(y) && sch.cmp(v, x) < 0 && sch.cmp(x, y) <= 0
    ensures sch.cmp(v, y) < 0
  {
    assert Sign(sch.cmp(v, x)) == -Sign(sch.cmp(x, v)) && Sign(sch.cmp(v, y)) == -Sign(sch.cmp(y, v));
    assert sch.cmp(x, y) <= 0 && sch.cmp(y, v) <= 0 ==> sch.cmp(x, v) <= 0;
  }

  lemma Flipped<V(!new)>(sch: Scheme<V>, ok: V -> bool, x: V, y: V)
    requires RanksOn(sch.cmp, ok) && ok(x) && ok(y)
    ensures Sign(sch.cmp(x, y)) == -Sign(sch.cmp(y, x)) && sch.cmp(x, x) == 0
  {
    assert Sign(sch.cmp(x, x)) == -Sign(sch.cmp(x, x));
  }

  lemma Between<V(!new)>(sch: Scheme<V>, ok: V -> bool, x: V, v: V, y: V)
    requires RanksOn(sch.cmp, ok) && ok(x) && ok(v) && ok(y) && sch.cmp(v, x) >= 0
    ensures sch.cmp(v, y) < 0 ==> sch.cmp(x, y) < 0
    ensures sch.cmp(v, y) <= 0 ==> sch.cmp(x, y) <= 0
  {
    Flipped(sch, ok, v, x);
    Flipped(sch, ok, x, y);
    Flipped(sch, ok, v, y);
    assert sch.cmp(y, x) <= 0 && sch.cmp(x, v) <= 0 ==> sch.cmp(y, v) <= 0;
    assert sch.cmp(x, v) <= 0 && sch.cmp(v, y) <= 0 ==> sch.cmp(x, y) <= 0;
  }

  /** Every change before the period has happened, none from it on. */
  lemma {:induction false} PeriodSplits<V(!new)>(sch: Scheme<V>, ok: V -> bool, s: seq<Change<V>>, v: V)
    requires RanksOn(sch.cmp, ok) && InOrder(sch, ok, s) && ok(v)
    ensures forall i | 0 <= i < Period(sch, s, v) :: sch.cmp(v, s[i].at) >= 0
    ensures forall i | Period(sch, s, v) <= i < |s| :: sch.cmp(v, s[i].at) < 0
  {
    hide RanksOn;
    if s != [] {
      var last := s[|s| - 1].at;
      if sch.cmp(v, last) >= 0 {
        forall i | 0 <= i < |s| ensures sch.cmp(v, s[i].at) >= 0 {
          Flipped(sch, ok, s[i].at, last);
          AtLeast(sch, ok, v, last, s[i].at);
        }
      } else {
        PeriodSplits(sch, ok, s[..|s| - 1], v);
      }
    }
  }

  /** Only the window of its own period can accept a version. */
  lemma WindowIsOwnPeriod<V(!new)>(sch: Scheme<V>, ok: V -> bool, e: Entry<V>, v: V, k: nat)
    requires Usable(sch, ok, e) && ok(v) && k <= |Timeline(sch, e)|
    requires IsVersionAffected(sch, v, WindowOf(e, Timeline(sch, e), k))
    ensures k == Period(sch, Timeline(sch, e), v)
  {
    hide Timeline, Period;
    var s := Timeline(sch, e);
    TimelineFacts(sch, ok, e);
    PeriodSplits(sch, ok, s, v);
    if k < |s| { assert sch.cmp(v, s[k].at) < 0; }
    if k > 0 { assert sch.cmp(v, s[k - 1].at) >= 0; }
  }

  lemma AcceptedByOwnWindow<V(!new)>(sch: Scheme<V>, ok: V -> bool, e: Entry<V>, v: V)
    requires Usable(sch, ok, e) && ok(v)
    ensures var s := Timeline(sch, e);
            var k := Period(sch, s, v);
            Accepted(sch, e, v) <==> AffectedIn(e, s, k) && IsVersionAffected(sch, v, WindowOf(e, s, k))
  {
    hide Timeline, Period, Windows, IsVersionAffected, WindowOf, AffectedIn, Usable;
    var s := Timeline(sch, e);
    var k := Period(sch, s, v);
    WindowsHas(e, s, |s| + 1, WindowOf(e, s, k));
    if Accepted(sch, e, v) {
      var w :| w in Windows(e, s, |s| + 1) && IsVersionAffected(sch, v, w);
      WindowsHas(e, s, |s| + 1, w);
      var j: nat :| j < |s| + 1 && AffectedIn(e, s, j) && w == WindowOf(e, s, j);
      WindowIsOwnPeriod(sch, ok, e, v, j);
    }
  }

  /** No version is accepted by the windows of two periods. */
  lemma WindowsAreDisjoint<V(!new)>(sch: Scheme<V>, ok: V -> bool, e: Entry<V>, v: V, j: nat, k: nat)
    requires Usable(sch, ok, e) && ok(v) && j <= |Timeline(sch, e)| && k <= |Timeline(sch, e)|
    requires IsVersionAffected(sch, v, WindowOf(e, Timeline(sch, e), j))
    requires IsVersionAffected(sch, v, WindowOf(e, Timeline(sch, e), k))
    ensures j == k
  {
    WindowIsOwnPeriod(sch, ok, e, v, j);
    WindowIsOwnPeriod(sch, ok, e, v, k);
  }

  // ---- When the expansion preserves the meaning ----

  /** An affected period whose window admits its own start, if it has one. */
  predicate Live<V>(sch: Scheme<V>, e: Entry<V>, s: seq<Change<V>>, k: nat)
    requires k <= |s|
  {
    var start, w := StartOf(e, s, k), WindowOf(e, s, k);
    AffectedIn(e, s, k) && (sch.like(start) ==>
      && (Like(sch, w.lessThan) ==> sch.cmp(start, w.lessThan.value) < 0)
      && (Like(sch, w.lessThanOrEqual) ==> sch.cmp(start, w.lessThanOrEqual.value) <= 0))
  }

  /** No version ranks strictly between the two. */
  ghost predicate NothingBetween<V(!new)>(sch: Scheme<V>, ok: V -> bool, low: V, high: V) {
    forall v | ok(v) && !sch.blank(v) && sch.cmp(v, low) > 0 :: sch.cmp(v, high) >= 0
  }

  /** The period does not start before the entry's version. */
  predicate StartsInside<V>(sch: Scheme<V>, e: Entry<V>, s: seq<Change<V>>, k: nat)
    requires k <= |s|
  {
    sch.like(StartOf(e, s, k)) && sch.like(e.version) ==> sch.cmp(StartOf(e, s, k), e.version) >= 0
  }

  /** A period that a change ends holds no version past the entry's upper bounds. */
  ghost predicate EndsInside<V(!new)>(sch: Scheme<V>, ok: V -> bool, e: Entry<V>, s: seq<Change<V>>, k: nat)
    requires k < |s|
  {
    && (Like(sch, e.lessThan) ==> sch.cmp(s[k].at, e.lessThan.value) <= 0)
    && (Like(sch, e.lessThanOrEqual) ==>
          && (sch.like(StartOf(e, s, k)) ==> sch.cmp(StartOf(e, s, k), e.lessThanOrEqual.value) <= 0)
          && NothingBetween(sch, ok, e.lessThanOrEqual.value, s[k].at))
  }

  /** Live periods neither start before the entry's version nor go on past its upper bounds. */
  ghost predicate InsideBounds<V(!new)>(sch: Scheme<V>, ok: V -> bool, e: Entry<V>) {
    var s := Timeline(sch, e);
    forall k: nat | k <= |s| && Live(sch, e, s, k) :: StartsInside(sch, e, s, k) && (k < |s| ==> EndsInside(sch, ok, e, s, k))
  }

  /** What the entry means, its own window accepts. */
  lemma MeantIsAccepted<V(!new)>(sch: Scheme<V>, ok: V -> bool, e: Entry<V>, v: V)
    requires Usable(sch, ok, e) && ok(v) && !sch.blank(v) && Means(sch, e, v)
    ensures Accepted(sch, e, v)
  {
    hide Timeline, Period, Windows, Accepted;
    var s := Timeline(sch, e);
    var k := Period(sch, s, v);
    AcceptedByOwnWindow(sch, ok, e, v);
    TimelineFacts(sch, ok, e);
    PeriodSplits(sch, ok, s, v);
    if k < |s| { assert sch.like(s[k].at) && sch.cmp(v, s[k].at) < 0; }
    if k > 0 { assert sch.like(s[k - 1].at) && sch.cmp(v, s[k - 1].at) >= 0; }
  }

  /** A version accepted in a period makes the period live. */
  lemma AcceptedIsLive<V(!new)>(sch: Scheme<V>, ok: V -> bool, e: Entry<V>, s: seq<Change<V>>, v: V, k: nat)
    requires RanksOn(sch.cmp, ok) && ok(v) && k <= |s| && AffectedIn(e, s, k) && IsVersionAffected(sch, v, WindowOf(e, s, k))
    requires sch.like(StartOf(e, s, k)) ==> ok(StartOf(e, s, k))
    requires Bound(sch, ok, WindowOf(e, s, k).lessThan) && Bound(sch, ok, WindowOf(e, s, k).lessThanOrEqual)
    ensures Live(sch, e, s, k)
  {
    var start, w := StartOf(e, s, k), WindowOf(e, s, k);
    if sch.like(start) {
      if Like(sch, w.lessThan) { Between(sch, ok, start, v, w.lessThan.value); }
      if Like(sch, w.lessThanOrEqual) { Between(sch, ok, start, v, w.lessThanOrEqual.value); }
    }
  }

  lemma AcceptedIsMeant<V(!new)>(sch: Scheme<V>, ok: V -> bool, e: Entry<V>, v: V)
    requires Usable(sch, ok, e) && InsideBounds(sch, ok, e) && ok(v) && Accepted(sch, e, v)
    ensures Means(sch, e, v)
  {
    hide Timeline, Period, Windows, Accepted;
    var s := Timeline(sch, e);
    var k := Period(sch, s, v);
    var start := StartOf(e, s, k);
    AcceptedByOwnWindow(sch, ok, e, v);
    TimelineFacts(sch, ok, e);
    AcceptedIsLive(sch, ok, e, s, v, k);
    assert StartsInside(sch, e, s, k) && (k < |s| ==> EndsInside(sch, ok, e, s, k));
    hide Live, InsideBounds;
    if sch.like(e.version) { AtLeast(sch, ok, v, start, e.version); }
    if k < |s| && Like(sch, e.lessThan) { Below(sch, ok, v, s[k].at, e.lessThan.value); }
  }

  lemma ExpansionPreservesMeaning<V(!new)>(sch: Scheme<V>, ok: V -> bool, e: Entry<V>, v: V)
    requires Usable(sch, ok, e) && InsideBounds(sch, ok, e) && ok(v) && !sch.blank(v)
    ensures Accepted(sch, e, v) <==> Means(sch, e, v)
  {
    if Accepted(sch, e, v) { AcceptedIsMeant(sch, ok, e, v); }
    if Means(sch, e, v) { MeantIsAccepted(sch, ok, e, v); }
  }

  /**
   * The condition is exact, whatever the bounds: when a live period leaves them, some version is
   * accepted that the entry does not mean.
   */
  lemma InsideBoundsIsExact<V(!new)>(sch: Scheme<V>, ok: V -> bool, e: Entry<V>)
    requires Usable(sch, ok, e)
    ensures InsideBounds(sch, ok, e) <==> forall v | ok(v) && !sch.blank(v) :: Accepted(sch, e, v) <==> Means(sch, e, v)
  {
    if InsideBounds(sch, ok, e) {
      forall v | ok(v) && !sch.blank(v) ensures Accepted(sch, e, v) <==> Means(sch, e, v) {
        ExpansionPreservesMeaning(sch, ok, e, v);
      }
    } else {
      var v := WronglyAccepted(sch, ok, e);
    }
  }

  /** The version that gives the period away: its start, the exclusive bound, or one past the inclusive bound. */
  lemma Witness<V(!new)>(sch: Scheme<V>, ok: V -> bool, e: Entry<V>, s: seq<Change<V>>, k: nat) returns (v: V)
    requires Usable(sch, ok, e) && InOrder(sch, ok, s) && (s == [] <==> e.changes == []) && k <= |s| && Live(sch, e, s, k)
    requires !(StartsInside(sch, e, s, k) && (k < |s| ==> EndsInside(sch, ok, e, s, k)))
    ensures ok(v) && !sch.blank(v) && !InRange(sch, e, v) && IsVersionAffected(sch, v, WindowOf(e, s, k))
  {
    var start := StartOf(e, s, k);
    if sch.like(start) { Flipped(sch, ok, start, start); }
    if !InRange(sch, e, start) && sch.like(start) {
      v := start;
    } else if Like(sch, e.lessThan) && sch.cmp(s[k].at, e.lessThan.value) > 0 {
      v := e.lessThan.value;
      Flipped(sch, ok, v, s[k].at);
      if sch.like(start) { Flipped(sch, ok, v, start); }
    } else {
      v :| ok(v) && !sch.blank(v) && sch.cmp(v, e.lessThanOrEqual.value) > 0 && sch.cmp(v, s[k].at) < 0;
      if sch.like(start) {
        Flipped(sch, ok, start, e.lessThanOrEqual.value);
        AtLeast(sch, ok, v, e.lessThanOrEqual.value, start);
      }
    }
  }

  lemma WronglyAccepted<V(!new)>(sch: Scheme<V>, ok: V -> bool, e: Entry<V>) returns (v: V)
    requires Usable(sch, ok, e) && !InsideBounds(sch, ok, e)
    ensures ok(v) && !sch.blank(v) && Accepted(sch, e, v) && !Means(sch, e, v)
  {
    hide Timeline, Period, Windows, Accepted, Live, StartsInside, EndsInside, IsVersionAffected;
    var s := Timeline(sch, e);
    var k: nat :| k <= |s| && Live(sch, e, s, k) && !(StartsInside(sch, e, s, k) && (k < |s| ==> EndsInside(sch, ok, e, s, k)));
    TimelineFacts(sch, ok, e);
    v := Witness(sch, ok, e, s, k);
    WindowIsOwnPeriod(sch, ok, e, v, k);
    AcceptedByOwnWindow(sch, ok, e, v);
    LiveIsAffected(sch, e, s, k);
  }

  lemma LiveIsAffected<V>(sch: Scheme<V>, e: Entry<V>, s: seq<Change<V>>, k: nat)
    requires k <= |s| && Live(sch, e, s, k)
    ensures AffectedIn(e, s, k)
  {
  }

  /** Changes listed between the version and the upper bounds always stay inside them. */
  lemma OrderlyTimelineIsInside<V(!new)>(sch: Scheme<V>, ok: V -> bool, e: Entry<V>)
    requires Usable(sch, ok, e)
    requires forall c | c in e.changes ::
               && (sch.like(e.version) ==> sch.cmp(c.at, e.version) >= 0)
               && (Like(sch, e.lessThan) ==> sch.cmp(c.at, e.lessThan.value) <= 0)
               && (Like(sch, e.lessThanOrEqual) ==> sch.cmp(c.at, e.lessThanOrEqual.value) <= 0)
    ensures InsideBounds(sch, ok, e)
  {
    hide Timeline;
    var s := Timeline(sch, e);
    TimelineFacts(sch, ok, e);
    forall k: nat | k <= |s| && Live(sch, e, s, k)
      ensures StartsInside(sch, e, s, k) && (k < |s| ==> EndsInside(sch, ok, e, s, k))
    {
      var start := StartOf(e, s, k);
      if sch.like(e.version) { Flipped(sch, ok, e.version, e.version); }
      if k < |s| && Like(sch, e.lessThanOrEqual) {
        var end, last := s[k].at, e.lessThanOrEqual.value;
        assert s[k] in e.changes;
        if sch.like(start) { Below(sch, ok, start, end, last); }
        EmptyAbove(sch, ok, end, last);
      }
    }
  }

  lemma EmptyAbove<V(!new)>(sch: Scheme<V>, ok: V -> bool, end: V, last: V)
    requires RanksOn(sch.cmp, ok) && ok(end) && ok(last) && sch.cmp(end, last) <= 0
    ensures NothingBetween(sch, ok, last, end)
  {
    forall v | ok(v) && !sch.blank(v) && sch.cmp(v, last) > 0 ensures sch.cmp(v, end) >= 0 {
      if sch.cmp(v, end) < 0 { Below(sch, ok, v, end, last); }
    }
  }

  ghost predicate HasBetween<V(!new)>(sch: Scheme<V>, ok: V -> bool, x: V, y: V) {
    exists v :: ok(v) && !sch.blank(v) && sch.cmp(v, x) > 0 && sch.cmp(v, y) < 0
  }

  /** Between two versions lies a third. */
  ghost predicate Dense<V(!new)>(sch: Scheme<V>, ok: V -> bool) {
    forall x, y | ok(x) && ok(y) && sch.cmp(x, y) < 0 :: HasBetween(sch, ok, x, y)
  }

  /** Then holding nothing between a bound and a later change is ending at the bound. */
  lemma DenseMeansWithin<V(!new)>(sch: Scheme<V>, ok: V -> bool, end: V, last: V)
    requires RanksOn(sch.cmp, ok) && ok(end) && ok(last) && Dense(sch, ok)
    ensures NothingBetween(sch, ok, last, end) <==> sch.cmp(end, last) <= 0
  {
    Flipped(sch, ok, end, last);
    if sch.cmp(end, last) <= 0 { EmptyAbove(sch, ok, end, last); }
  }

  /** The change that ends the period is not past the entry's upper bounds. */
  predicate EndsBy<V>(sch: Scheme<V>, e: Entry<V>, s: seq<Change<V>>, k: nat)
    requires k < |s|
  {
    && (Like(sch, e.lessThan) ==> sch.cmp(s[k].at, e.lessThan.value) <= 0)
    && (Like(sch, e.lessThanOrEqual) ==> sch.cmp(s[k].at, e.lessThanOrEqual.value) <= 0)
  }

  /** The bounds compared with the changes, and with nothing else. */
  predicate PlainlyInside<V>(sch: Scheme<V>, e: Entry<V>) {
    var s := Timeline(sch, e);
    forall k: nat | k <= |s| && Live(sch, e, s, k) :: StartsInside(sch, e, s, k) && (k < |s| ==> EndsBy(sch, e, s, k))
  }

  lemma LiveEnds<V(!new)>(sch: Scheme<V>, ok: V -> bool, e: Entry<V>, s: seq<Change<V>>, k: nat)
    requires Usable(sch, ok, e) && InOrder(sch, ok, s) && k < |s| && Live(sch, e, s, k)
    ensures ok(s[k].at) && (Like(sch, e.lessThanOrEqual) ==> ok(e.lessThanOrEqual.value))
    ensures sch.like(StartOf(e, s, k)) ==> ok(StartOf(e, s, k)) && sch.cmp(StartOf(e, s, k), s[k].at) < 0
  {
    hide RanksOn;
  }

  lemma DenseEnds<V(!new)>(sch: Scheme<V>, ok: V -> bool, e: Entry<V>, s: seq<Change<V>>, k: nat)
    requires RanksOn(sch.cmp, ok) && Usable(sch, ok, e) && Dense(sch, ok) && InOrder(sch, ok, s) && k < |s| && Live(sch, e, s, k)
    ensures EndsInside(sch, ok, e, s, k) <==> EndsBy(sch, e, s, k)
  {
    hide RanksOn, Dense, NothingBetween, Live, Usable, InOrder;
    LiveEnds(sch, ok, e, s, k);
    if Like(sch, e.lessThanOrEqual) {
      var start, end, last := StartOf(e, s, k), s[k].at, e.lessThanOrEqual.value;
      DenseMeansWithin(sch, ok, end, last);
      if sch.like(start) && sch.cmp(end, last) <= 0 { Below(sch, ok, start, end, last); }
    }
  }

  /** So, where versions lie dense, comparing the bounds with the changes tells exactly whether the expansion is right. */
  lemma PlainlyInsideIsExact<V(!new)>(sch: Scheme<V>, ok: V -> bool, e: Entry<V>)
    requires Usable(sch, ok, e) && Dense(sch, ok)
    ensures PlainlyInside(sch, e) <==> InsideBounds(sch, ok, e)
    ensures PlainlyInside(sch, e) <==> forall v | ok(v) && !sch.blank(v) :: Accepted(sch, e, v) <==> Means(sch, e, v)
  {
    assert RanksOn(sch.cmp, ok);
    hide Timeline, Live, EndsInside, EndsBy, StartsInside, Accepted, Means, Dense, Usable, RanksOn;
    var s := Timeline(sch, e);
    TimelineFacts(sch, ok, e);
    forall k: nat | k < |s| && Live(sch, e, s, k) ensures EndsInside(sch, ok, e, s, k) <==> EndsBy(sch, e, s, k) {
      DenseEnds(sch, ok, e, s, k);
    }
    InsideBoundsIsExact(sch, ok, e);
  }
}
