/**
 * lib/maven-version.js:146-180, 277-312 and lib/commercial-support.js:30-69: which versions a
 * CVE range covers, the fix on a version's own branch, and the strictest of several fixes.
 *
 * Versions are any type; where an order matters it is asked of the versions at hand. `like` says whether a bound looks like a
 * version at all (placeholders do not), `blank` whether there is no version to compare.
 */
module BranchFix {
  import opened Basics
  import opened Orders

  datatype Scheme<!V> = Scheme(cmp: (V, V) -> int, like: V -> bool, blank: V -> bool)

  datatype Status = Unstated | Affected | OtherStatus

  datatype Spec<V> = Spec(version: Option<V>, status: Status, lessThan: Option<V>, lessThanOrEqual: Option<V>)

  predicate Like<V>(sch: Scheme<V>, bound: Option<V>) {
    bound.Some? && sch.like(bound.value)
  }

  predicate IsVersionAffected<V>(sch: Scheme<V>, v: V, spec: Spec<V>) {
    var lower, upper, last := Like(sch, spec.version), Like(sch, spec.lessThan), Like(sch, spec.lessThanOrEqual);
    && spec.status != OtherStatus
    && !sch.blank(v)
    && (lower || upper || last)
    && (lower ==> sch.cmp(v, spec.version.value) >= 0)
    && (upper ==> sch.cmp(v, spec.lessThan.value) < 0)
    && (last ==> sch.cmp(v, spec.lessThanOrEqual.value) <= 0)
    && (lower && spec.lessThan.None? && spec.lessThanOrEqual.None? ==> sch.cmp(v, spec.version.value) == 0)
  }

  // ---- What an entry covers, shape by shape ----

  /** A version alone names that version, and whatever ties with it. */
  lemma VersionAlone<V>(sch: Scheme<V>, v: V, x: V, status: Status)
    requires sch.like(x) && !sch.blank(v) && status != OtherStatus
    ensures IsVersionAffected(sch, v, Spec(Some(x), status, None, None)) <==> sch.cmp(v, x) == 0
  {
  }

  /** A version and upper bounds that are mere placeholders name it and all after it. */
  lemma VersionOnwards<V>(sch: Scheme<V>, v: V, x: V, status: Status, lessThan: Option<V>, lessThanOrEqual: Option<V>)
    requires sch.like(x) && !sch.blank(v) && status != OtherStatus && (lessThan.Some? || lessThanOrEqual.Some?)
    requires (lessThan.Some? ==> !sch.like(lessThan.value)) && (lessThanOrEqual.Some? ==> !sch.like(lessThanOrEqual.value))
    ensures IsVersionAffected(sch, v, Spec(Some(x), status, lessThan, lessThanOrEqual)) <==> sch.cmp(v, x) >= 0
  {
  }

  /** Usable bounds name the stretch between them; one that is missing or a placeholder asks nothing. */
  lemma Stretch<V>(sch: Scheme<V>, v: V, spec: Spec<V>)
    requires !sch.blank(v) && spec.status != OtherStatus
    requires (spec.lessThan.Some? && sch.like(spec.lessThan.value)) || (spec.lessThanOrEqual.Some? && sch.like(spec.lessThanOrEqual.value))
    ensures IsVersionAffected(sch, v, spec) <==>
              && (forall x | spec.version == Some(x) && sch.like(x) :: sch.cmp(v, x) >= 0)
              && (forall x | spec.lessThan == Some(x) && sch.like(x) :: sch.cmp(v, x) < 0)
              && (forall x | spec.lessThanOrEqual == Some(x) && sch.like(x) :: sch.cmp(v, x) <= 0)
  {
  }

  /** Nothing is named by an entry without a usable bound, or of another status; and no blank version is. */
  lemma NothingNamed<V>(sch: Scheme<V>, v: V, spec: Spec<V>)
    requires || spec.status == OtherStatus || sch.blank(v)
             || forall x | x in [spec.version, spec.lessThan, spec.lessThanOrEqual] && x.Some? :: !sch.like(x.value)
    ensures !IsVersionAffected(sch, v, spec)
  {
    var bounds := [spec.version, spec.lessThan, spec.lessThanOrEqual];
    assert bounds[0] in bounds && bounds[1] in bounds && bounds[2] in bounds;
  }

  /** What an entry is for: one version, a version and all after it, a stretch up to a bound, or nothing. */
  datatype Extent<V> = Only(v: V) | Onwards(v: V) | Below(from: Option<V>, before: V, upTo: Option<V>) | UpTo(from: Option<V>, last: V) | Empty

  function ExtentOf<V>(sch: Scheme<V>, spec: Spec<V>): Extent<V> {
    var usable := (o: Option<V>) => if o.Some? && sch.like(o.value) then o else None;
    if spec.status == OtherStatus then Empty
    else match (usable(spec.version), usable(spec.lessThan), usable(spec.lessThanOrEqual))
      case (from, Some(before), upTo) => Below(from, before, upTo)
      case (from, None, Some(last)) => UpTo(from, last)
      case (Some(x), None, None) => if spec.lessThan.Some? || spec.lessThanOrEqual.Some? then Onwards(x) else Only(x)
      case (None, None, None) => Empty
  }

  predicate Within<V>(cmp: (V, V) -> int, v: V, e: Extent<V>) {
    match e
    case Only(x) => cmp(v, x) == 0
    case Onwards(x) => cmp(v, x) >= 0
    case Below(from, before, upTo) => (from.Some? ==> cmp(v, from.value) >= 0) && cmp(v, before) < 0 && (upTo.Some? ==> cmp(v, upTo.value) <= 0)
    case UpTo(from, last) => (from.Some? ==> cmp(v, from.value) >= 0) && cmp(v, last) <= 0
    case Empty => false
  }

  /** The test of the program says whether the version lies there. */
  lemma AffectedIffWithin<V>(sch: Scheme<V>, v: V, spec: Spec<V>)
    requires !sch.blank(v)
    ensures IsVersionAffected(sch, v, spec) <==> Within(sch.cmp, v, ExtentOf(sch, spec))
  {
  }

  // ---- Fixes ----

  datatype Fix<V> = FixedIn(v: V) | After(v: V)

  /** Does `v` satisfy the branch fix? Nothing satisfies an unknown one. */
  predicate Meets<V>(cmp: (V, V) -> int, v: V, f: Option<Fix<V>>) {
    match f
    case None => false
    case Some(FixedIn(x)) => cmp(v, x) >= 0
    case Some(After(x)) => cmp(v, x) > 0
  }

  function Stricter<V>(cmp: (V, V) -> int, a: Option<Fix<V>>, b: Option<Fix<V>>): Option<Fix<V>> {
    if a.None? then b
    else if b.None? then a
    else
      var c := cmp(a.value.v, b.value.v);
      if c != 0 then if c > 0 then a else b
      else if a.value.After? then a else b
  }

  /** One upgrade satisfies the stricter fix exactly when it satisfies both. */
  lemma StricterIsConjunction<V(!new)>(cmp: (V, V) -> int, ok: V -> bool, v: V, a: Fix<V>, b: Fix<V>)
    requires RanksOn(cmp, ok) && ok(v) && ok(a.v) && ok(b.v)
    ensures Meets(cmp, v, Stricter(cmp, Some(a), Some(b))) <==> Meets(cmp, v, Some(a)) && Meets(cmp, v, Some(b))
  {
    var x, y := a.v, b.v;
    assert Sign(cmp(x, y)) == -Sign(cmp(y, x));
    assert Sign(cmp(v, x)) == -Sign(cmp(x, v)) && Sign(cmp(v, y)) == -Sign(cmp(y, v));
    assert cmp(x, y) <= 0 && cmp(y, v) <= 0 ==> cmp(x, v) <= 0;
    assert cmp(y, x) <= 0 && cmp(x, v) <= 0 ==> cmp(y, v) <= 0;
    assert cmp(v, x) <= 0 && cmp(x, y) <= 0 ==> cmp(v, y) <= 0;
    assert cmp(v, y) <= 0 && cmp(y, x) <= 0 ==> cmp(v, x) <= 0;
  }

  // ---- The fix on the version's own branch ----

  /** The first range that holds the version and states its upper bound. */
  function FixFromRanges<V>(sch: Scheme<V>, v: V, ranges: seq<Spec<V>>): Option<Fix<V>> {
    if ranges == [] then None
    else
      var r := ranges[0];
      if IsVersionAffected(sch, v, r) && Like(sch, r.lessThan) then Some(FixedIn(r.lessThan.value))
      else if IsVersionAffected(sch, v, r) && Like(sch, r.lessThanOrEqual) then Some(After(r.lessThanOrEqual.value))
      else FixFromRanges(sch, v, ranges[1..])
  }

  method BranchFixFromRanges<V>(sch: Scheme<V>, v: V, ranges: seq<Spec<V>>) returns (f: Option<Fix<V>>)
    ensures f == FixFromRanges(sch, v, ranges)
  {
    for i := 0 to |ranges|
      invariant FixFromRanges(sch, v, ranges) == FixFromRanges(sch, v, ranges[i..])
    {
      var r := ranges[i];
      if !IsVersionAffected(sch, v, r) { continue; }
      if Like(sch, r.lessThan) { return Some(FixedIn(r.lessThan.value)); }
      if Like(sch, r.lessThanOrEqual) { return Some(After(r.lessThanOrEqual.value)); }
    }
    return None;
  }

  predicate StatesFix<V>(sch: Scheme<V>, v: V, r: Spec<V>) {
    IsVersionAffected(sch, v, r) && (Like(sch, r.lessThan) || Like(sch, r.lessThanOrEqual))
  }

  /** There is a fix exactly when some range of the version is bounded, and it is never met yet. */
  lemma {:induction false} FixIsAhead<V>(sch: Scheme<V>, v: V, ranges: seq<Spec<V>>)
    ensures FixFromRanges(sch, v, ranges).Some? <==> exists r | r in ranges :: StatesFix(sch, v, r)
    ensures !Meets(sch.cmp, v, FixFromRanges(sch, v, ranges))
  {
    if ranges != [] {
      FixIsAhead(sch, v, ranges[1..]);
      forall r ensures r in ranges <==> r == ranges[0] || r in ranges[1..] {
        assert ranges == [ranges[0]] + ranges[1..];
      }
      assert StatesFix(sch, v, ranges[0]) ==> ranges[0] in ranges;
    }
  }

  /**
   * The fix is read from the first such range: a version meets it when it is no longer below that
   * range's lessThan, or, where that is no version, when it is past lessThanOrEqual.
   */
  lemma {:induction false} FixOfTheFirst<V>(sch: Scheme<V>, v: V, ranges: seq<Spec<V>>, i: nat, u: V)
    requires i < |ranges| && StatesFix(sch, v, ranges[i]) && forall j | 0 <= j < i :: !StatesFix(sch, v, ranges[j])
    ensures var r, f := ranges[i], FixFromRanges(sch, v, ranges);
            && f.Some?
            && (r.lessThan.Some? && sch.like(r.lessThan.value) ==> (Meets(sch.cmp, u, f) <==> sch.cmp(u, r.lessThan.value) >= 0))
            && (r.lessThan.None? || !sch.like(r.lessThan.value) ==> (Meets(sch.cmp, u, f) <==> sch.cmp(u, r.lessThanOrEqual.value) > 0))
  {
    hide IsVersionAffected;
    if i > 0 {
      assert !StatesFix(sch, v, ranges[0]);
      forall j | 0 <= j < i - 1 ensures !StatesFix(sch, v, ranges[1..][j]) { assert ranges[1..][j] == ranges[j + 1]; }
      FixOfTheFirst(sch, v, ranges[1..], i - 1, u);
    }
  }

  // ---- The fix all findings of a component need ----

  datatype Match<V> = Match(ignored: bool, coord: string, version: string, fix: Option<Fix<V>>)

  predicate Counts<V>(m: Match<V>, coords: map<string, string>) {
    !m.ignored && m.coord in coords && coords[m.coord] == m.version
  }

  function FixesOf<V>(matches: seq<Match<V>>, coords: map<string, string>): seq<Fix<V>> {
    if matches == [] then []
    else
      var m := matches[|matches| - 1];
      FixesOf(matches[..|matches| - 1], coords) + if Counts(m, coords) && m.fix.Some? then [m.fix.value] else []
  }

  function Total<V>(matches: seq<Match<V>>, coords: map<string, string>): nat {
    if matches == [] then 0
    else Total(matches[..|matches| - 1], coords) + if Counts(matches[|matches| - 1], coords) then 1 else 0
  }

  function Strictest<V>(cmp: (V, V) -> int, fixes: seq<Fix<V>>): Option<Fix<V>> {
    if fixes == [] then None
    else Stricter(cmp, Strictest(cmp, fixes[..|fixes| - 1]), Some(fixes[|fixes| - 1]))
  }

  lemma StrictestSnoc<V>(cmp: (V, V) -> int, fixes: seq<Fix<V>>, f: Fix<V>)
    ensures Strictest(cmp, fixes + [f]) == Stricter(cmp, Strictest(cmp, fixes), Some(f))
  {
    assert (fixes + [f])[..|fixes|] == fixes;
  }

  method NeededFix<V>(cmp: (V, V) -> int, matches: seq<Match<V>>, coords: map<string, string>)
    returns (need: Option<Fix<V>>, total: nat, withBound: nat)
    ensures need == Strictest(cmp, FixesOf(matches, coords))
    ensures total == Total(matches, coords) && withBound == |FixesOf(matches, coords)|
  {
    hide Stricter, Counts;
    need, total, withBound := None, 0, 0;
    for i := 0 to |matches|
      invariant need == Strictest(cmp, FixesOf(matches[..i], coords))
      invariant total == Total(matches[..i], coords) && withBound == |FixesOf(matches[..i], coords)|
    {
      assert matches[..i + 1][..i] == matches[..i];
      var m := matches[i];
      assert FixesOf(matches[..i], coords) + [] == FixesOf(matches[..i], coords);
      if !Counts(m, coords) { continue; }
      total := total + 1;
      if m.fix.Some? {
        StrictestSnoc(cmp, FixesOf(matches[..i], coords), m.fix.value);
        withBound := withBound + 1;
        need := Stricter(cmp, need, m.fix);
      }
    }
    assert matches[..|matches|] == matches;
  }

  predicate MeetsAll<V>(cmp: (V, V) -> int, v: V, fixes: seq<Fix<V>>) {
    forall i | 0 <= i < |fixes| :: Meets(cmp, v, Some(fixes[i]))
  }

  lemma MeetsAllSnoc<V>(cmp: (V, V) -> int, v: V, fixes: seq<Fix<V>>, f: Fix<V>)
    ensures MeetsAll(cmp, v, fixes + [f]) <==> MeetsAll(cmp, v, fixes) && Meets(cmp, v, Some(f))
  {
    if MeetsAll(cmp, v, fixes + [f]) {
      assert (fixes + [f])[|fixes|] == f;
      forall i | 0 <= i < |fixes| ensures Meets(cmp, v, Some(fixes[i])) {
        assert (fixes + [f])[i] == fixes[i];
      }
    }
  }

  lemma {:induction false} StrictestIsOne<V>(cmp: (V, V) -> int, fixes: seq<Fix<V>>)
    ensures Strictest(cmp, fixes).None? <==> fixes == []
    ensures fixes != [] ==> Strictest(cmp, fixes).value in fixes
  {
    hide Stricter;
    if fixes != [] {
      var rest, last := fixes[..|fixes| - 1], fixes[|fixes| - 1];
      StrictestIsOne(cmp, rest);
      StricterIsEither(cmp, Strictest(cmp, rest), last);
      assert last in fixes && forall f | f in rest :: f in fixes;
    }
  }

  lemma StricterIsEither<V>(cmp: (V, V) -> int, a: Option<Fix<V>>, b: Fix<V>)
    ensures Stricter(cmp, a, Some(b)) == Some(b) || (a.Some? && Stricter(cmp, a, Some(b)) == a)
  {
  }

  /** The fold demands exactly every fix it saw. */
  lemma {:induction false} StrictestIsAll<V(!new)>(cmp: (V, V) -> int, ok: V -> bool, v: V, fixes: seq<Fix<V>>)
    requires RanksOn(cmp, ok) && ok(v) && forall f | f in fixes :: ok(f.v)
    ensures Strictest(cmp, fixes).None? <==> fixes == []
    ensures fixes != [] ==> (Meets(cmp, v, Strictest(cmp, fixes)) <==> MeetsAll(cmp, v, fixes))
  {
    hide Meets, Stricter, RanksOn;
    if fixes != [] {
      var rest, last := fixes[..|fixes| - 1], fixes[|fixes| - 1];
      MeetsAllSnoc(cmp, v, rest, last);
      assert fixes == rest + [last];
      StrictestIsAll(cmp, ok, v, rest);
      if rest == [] {
        StricterOfNone(cmp, Some(last));
      } else {
        StrictestIsOne(cmp, rest);
        StricterOfSome(cmp, Strictest(cmp, rest), Some(last));
        StricterIsConjunction(cmp, ok, v, Strictest(cmp, rest).value, last);
      }
    }
  }

  lemma StricterOfNone<V>(cmp: (V, V) -> int, b: Option<Fix<V>>)
    ensures Stricter(cmp, None, b) == b
  {
  }

  lemma StricterOfSome<V>(cmp: (V, V) -> int, a: Option<Fix<V>>, b: Option<Fix<V>>)
    requires a.Some? && b.Some?
    ensures Stricter(cmp, a, b).Some?
  {
  }

  /** Whatever order the findings come in, the same upgrades are good enough. */
  lemma StrictestIgnoresOrder<V(!new)>(cmp: (V, V) -> int, ok: V -> bool, v: V, a: seq<Fix<V>>, b: seq<Fix<V>>)
    requires RanksOn(cmp, ok) && ok(v) && (forall f | f in a :: ok(f.v)) && forall f :: f in a <==> f in b
    ensures Meets(cmp, v, Strictest(cmp, a)) <==> Meets(cmp, v, Strictest(cmp, b))
  {
    StrictestIsAll(cmp, ok, v, a);
    StrictestIsAll(cmp, ok, v, b);
    if a != [] { assert a[0] in b; }
    if b != [] { assert b[0] in a; }
    if MeetsAll(cmp, v, a) { MeetsAllReadsASet(cmp, v, a, b); }
    if MeetsAll(cmp, v, b) { MeetsAllReadsASet(cmp, v, b, a); }
  }

  lemma MeetsAllReadsASet<V>(cmp: (V, V) -> int, v: V, a: seq<Fix<V>>, b: seq<Fix<V>>)
    requires MeetsAll(cmp, v, a) && forall f | f in b :: f in a
    ensures MeetsAll(cmp, v, b)
  {
    forall i | 0 <= i < |b| ensures Meets(cmp, v, Some(b[i])) {
      assert b[i] in a;
    }
  }

  // ---- What the needed fix says of the findings ----

  /** The finding is not ignored, and the component is still at its version. */
  predicate IsStanding<V>(m: Match<V>, coords: map<string, string>) {
    !m.ignored && (m.coord, m.version) in coords.Items
  }

  ghost function Standing<V>(matches: seq<Match<V>>, coords: map<string, string>, fixed: bool): set<nat> {
    set i: nat | i < |matches| && IsStanding(matches[i], coords) && (fixed ==> matches[i].fix.Some?)
  }

  lemma StandingSnoc<V>(matches: seq<Match<V>>, coords: map<string, string>, fixed: bool)
    requires matches != []
    ensures var n, m, rest := |matches| - 1, matches[|matches| - 1], matches[..|matches| - 1];
            Standing(matches, coords, fixed) == Standing(rest, coords, fixed) + if Counts(m, coords) && (fixed ==> m.fix.Some?) then {n} else {}
  {
    var n := |matches| - 1;
    assert IsStanding(matches[n], coords) <==> Counts(matches[n], coords);
    hide Counts, IsStanding;
    assert forall i | 0 <= i < n :: matches[..n][i] == matches[i];
  }

  /** Both totals count findings, each once; the fixes are theirs and no others. */
  lemma {:induction false} NeededFixSays<V(!new)>(matches: seq<Match<V>>, coords: map<string, string>)
    ensures Total(matches, coords) == |Standing(matches, coords, false)|
    ensures |FixesOf(matches, coords)| == |Standing(matches, coords, true)|
    ensures forall f :: f in FixesOf(matches, coords) <==> exists i :: i in Standing(matches, coords, true) && matches[i].fix == Some(f)
  {
    if matches == [] {
      assert Standing(matches, coords, false) == {} && Standing(matches, coords, true) == {};
    } else {
      hide Counts, IsStanding;
      var n, rest := |matches| - 1, matches[..|matches| - 1];
      NeededFixSays(rest, coords);
      StandingSnoc(matches, coords, false);
      StandingSnoc(matches, coords, true);
      FixesMore(matches, coords, Standing(rest, coords, true), Standing(matches, coords, true));
    }
  }

  lemma FixesMore<V(!new)>(matches: seq<Match<V>>, coords: map<string, string>, before: set<nat>, after: set<nat>)
    requires matches != [] && forall i | i in before :: i < |matches| - 1
    requires var n, m := |matches| - 1, matches[|matches| - 1]; after == before + if Counts(m, coords) && m.fix.Some? then {n} else {}
    requires forall f :: f in FixesOf(matches[..|matches| - 1], coords) <==> exists i :: i in before && matches[i].fix == Some(f)
    ensures forall f :: f in FixesOf(matches, coords) <==> exists i :: i in after && matches[i].fix == Some(f)
  {
    hide Counts;
    var n := |matches| - 1;
    forall f ensures f in FixesOf(matches, coords) <==> f in FixesOf(matches[..n], coords) || (Counts(matches[n], coords) && matches[n].fix == Some(f)) { }
    assert n in after <==> Counts(matches[n], coords) && matches[n].fix.Some?;
  }
}
