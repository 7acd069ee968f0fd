/**
 * lib/maven-version.js:289-303 against lib/osv-db.js:120-141: the branch fix read from OSV
 * events is the end of the very interval that makes the version affected.
 */
module OsvBranchFix {
  import opened Basics
  import opened Orders
  import opened OsvRange
  import opened BranchFix

  /** What branchFixFromOsvEvents reads in an event: its first field. */
  function FirstFields<V>(raw: seq<RawEvent<V>>): seq<Event<V>> {
    if raw == [] then []
    else
      var e := raw[|raw| - 1];
      FirstFields(raw[..|raw| - 1]) + if e != [] && e[0].0.Is? then [Event(e[0].0.kind, e[0].1)] else []
  }

  function ByAt<V(==)>(sc: Scale<V>): (Event<V>, Event<V>) -> int {
    (a: Event<V>, b: Event<V>) => CmpV(sc, a.at, b.at)
  }

  function EndOf<V>(e: Event<V>): Fix<V> {
    if e.kind == Fixed then FixedIn(e.at) else After(e.at)
  }

  function FixWalk<V(==)>(sc: Scale<V>, v: V, s: seq<Event<V>>, start: Option<V>): Option<Fix<V>> {
    if s == [] then None
    else
      var e := s[0];
      if e.kind == Introduced then FixWalk(sc, v, s[1..], Some(e.at))
      else if start.None? then FixWalk(sc, v, s[1..], None)
      else if CmpV(sc, v, start.value) >= 0 && !Fires(sc, v, e) then Some(EndOf(e))
      else FixWalk(sc, v, s[1..], None)
  }

  function FixFromEvents<V(==)>(sc: Scale<V>, v: V, raw: seq<RawEvent<V>>): Option<Fix<V>> {
    FixWalk(sc, v, SortBy(ByAt(sc), FirstFields(raw)), None)
  }

  method BranchFixFromOsvEvents<V(==)>(sc: Scale<V>, v: V, raw: seq<RawEvent<V>>) returns (f: Option<Fix<V>>)
    ensures f == FixFromEvents(sc, v, raw)
  {
    var ev := [];
    for i := 0 to |raw|
      invariant ev == FirstFields(raw[..i])
    {
      assert raw[..i + 1][..i] == raw[..i];
      if raw[i] != [] && raw[i][0].0.Is? { ev := ev + [Event(raw[i][0].0.kind, raw[i][0].1)]; }
    }
    assert raw[..|raw|] == raw;
    ev := SortBy(ByAt(sc), ev);
    var start: Option<V> := None;
    for i := 0 to |ev|
      invariant FixFromEvents(sc, v, raw) == FixWalk(sc, v, ev[i..], start)
    {
      var e := ev[i];
      if e.kind == Introduced { start := Some(e.at); continue; }
      if start.None? { continue; }
      var c := CmpV(sc, v, e.at);
      var inside := CmpV(sc, v, start.value) >= 0 && if e.kind == Fixed then c < 0 else c <= 0;
      if inside { return if e.kind == Fixed then Some(FixedIn(e.at)) else Some(After(e.at)); }
      start := None;
    }
    return None;
  }

  // ---- Alternating events ----

  /** introduced, end, introduced, end, ... at strictly increasing versions. */
  ghost predicate Alternating<V>(sc: Scale<V>, s: seq<Event<V>>) {
    && (forall i | 0 <= i < |s| :: s[i].kind == Introduced <==> i % 2 == 0)
    && (forall i, j | 0 <= i < j < |s| :: CmpV(sc, s[i].at, s[j].at) < 0)
  }

  /** `v` is at or past the i-th event, an `introduced`, and not past the end that follows it. */
  predicate InInterval<V(==)>(sc: Scale<V>, v: V, s: seq<Event<V>>, i: nat) {
    && i < |s| && s[i].kind == Introduced
    && CmpV(sc, v, s[i].at) >= 0
    && (i + 1 < |s| ==> !Fires(sc, v, s[i + 1]))
  }

  /** The order ranks the versions of the events and the one looked for, `zero` aside. */
  ghost predicate Placed<V(!new)>(sc: Scale<V>, ok: V -> bool, v: V, s: seq<Event<V>>) {
    Ranked(sc, ok, s) && (v == sc.zero || ok(v))
  }

  /** At most one interval holds a version. */
  lemma OneInterval<V(!new)>(sc: Scale<V>, ok: V -> bool, v: V, s: seq<Event<V>>, i: nat, j: nat)
    requires Placed(sc, ok, v, s) && Alternating(sc, s) && InInterval(sc, v, s, i) && InInterval(sc, v, s, j)
    ensures i == j
  {
    var lo, hi := if i < j then i else j, if i < j then j else i;
    if lo < hi { FiredBefore(sc, ok, v, s, lo + 1, hi); }
  }

  lemma FiredBefore<V(!new)>(sc: Scale<V>, ok: V -> bool, v: V, s: seq<Event<V>>, i: nat, j: nat)
    requires Placed(sc, ok, v, s) && Alternating(sc, s) && i <= j < |s| && Fires(sc, v, s[j])
    ensures Fires(sc, v, s[i])
  {
    CmpVRanks(sc, ok);
    if i < j {
      var c, okv := ByVersion(sc), (x: V) => x == sc.zero || ok(x);
      var x, y := s[i].at, s[j].at;
      assert s[i] in s && s[j] in s;
      assert okv(x) && okv(y) && okv(v) && c(x, y) < 0;
      hide RanksOn, Ranked, CmpV, Alternating;
      PastTheLater(c, okv, v, x, y);
    }
  }

  lemma PastTheLater<V(!new)>(c: (V, V) -> int, ok: V -> bool, v: V, x: V, y: V)
    requires RanksOn(c, ok) && ok(v) && ok(x) && ok(y) && c(x, y) < 0
    ensures c(v, y) >= 0 ==> c(v, x) > 0
  {
    assert Sign(c(v, y)) == -Sign(c(y, v)) && Sign(c(v, x)) == -Sign(c(x, v)) && Sign(c(x, y)) == -Sign(c(y, x));
    assert c(y, v) <= 0 && c(v, x) <= 0 ==> c(y, x) <= 0;
  }

  lemma {:induction false} FixIsAnEnd<V>(sc: Scale<V>, v: V, s: seq<Event<V>>) returns (i: nat)
    requires Alternating(sc, s) && FixWalk(sc, v, s, None).Some?
    ensures InInterval(sc, v, s, i) && i + 1 < |s| && FixWalk(sc, v, s, None) == Some(EndOf(s[i + 1]))
    decreases |s|
  {
    assert |s| >= 2 && s[1..][1..] == s[2..];
    if InInterval(sc, v, s, 0) {
      i := 0;
    } else {
      i := FixIsAnEnd(sc, v, s[2..]);
      i := i + 2;
    }
  }

  lemma {:induction false} EndIsTheFix<V(!new)>(sc: Scale<V>, ok: V -> bool, v: V, s: seq<Event<V>>, i: nat)
    requires Placed(sc, ok, v, s) && Alternating(sc, s) && InInterval(sc, v, s, i) && i + 1 < |s|
    ensures FixWalk(sc, v, s, None) == Some(EndOf(s[i + 1]))
    decreases |s|
  {
    assert s[1..][1..] == s[2..];
    if i > 0 {
      if InInterval(sc, v, s, 0) { OneInterval(sc, ok, v, s, 0, i); }
      EndIsTheFix(sc, ok, v, s[2..], i - 2);
    }
  }

  lemma IntervalAffects<V(!new)>(sc: Scale<V>, ok: V -> bool, v: V, s: seq<Event<V>>, i: nat)
    requires Placed(sc, ok, v, s) && Alternating(sc, s) && InInterval(sc, v, s, i)
    ensures SaysAffected(sc, v, s)
  {
    hide Ranked, CmpV, CmpEvent;
    forall f | f in s && Fires(sc, v, f) ensures CmpEvent(sc, f, s[i]) <= 0 {
      var j: nat :| j < |s| && s[j] == f;
      if j > i { FiredBefore(sc, ok, v, s, i + 1, j); }
      NoLater(sc, ok, s, j, i);
    }
    assert Decides(sc, v, s, s[i]);
  }

  lemma NoLater<V(!new)>(sc: Scale<V>, ok: V -> bool, s: seq<Event<V>>, j: nat, i: nat)
    requires Ranked(sc, ok, s) && Alternating(sc, s) && j <= i < |s|
    ensures CmpEvent(sc, s[j], s[i]) <= 0
  {
    if j == i {
      CmpEventRanks(sc, ok);
      assert Rankable(sc, ok)(s[i]) && Sign(ByEvent(sc)(s[i], s[i])) == -Sign(ByEvent(sc)(s[i], s[i]));
    }
  }

  lemma AffectedInInterval<V(!new)>(sc: Scale<V>, ok: V -> bool, v: V, s: seq<Event<V>>) returns (i: nat)
    requires Placed(sc, ok, v, s) && Alternating(sc, s) && SaysAffected(sc, v, s)
    ensures InInterval(sc, v, s, i)
  {
    var e :| Decides(sc, v, s, e);
    i :| i < |s| && s[i] == e;
    if i + 1 < |s| {
      var c, okv := ByVersion(sc), (x: V) => x == sc.zero || ok(x);
      CmpVRanks(sc, ok);
      assert s[i] in s && s[i + 1] in s;
      assert okv(s[i].at) && okv(s[i + 1].at) && c(s[i].at, s[i + 1].at) < 0;
      assert Sign(c(s[i].at, s[i + 1].at)) == -Sign(c(s[i + 1].at, s[i].at));
    }
  }

  // ---- Both readers on one record ----

  /** Every event object has exactly one field, and none is a limit. */
  ghost predicate Plain<V>(raw: seq<RawEvent<V>>) {
    forall e: RawEvent<V> | e in raw :: |e| == 1 && e[0].0 != Limit
  }

  lemma SingleField<V>(e: RawEvent<V>, k: Key)
    requires |e| == 1
    ensures ValueOf(e, k) == if e[0].0 == k then Some(e[0].1) else None
  {
    assert e[1..] == [];
  }

  lemma {:induction false} SameEvents<V>(raw: seq<RawEvent<V>>)
    requires Plain(raw)
    ensures EventsOf(raw) == FirstFields(raw) && LimitsOf(raw) == []
  {
    if raw != [] {
      hide ValueOf;
      var e := raw[|raw| - 1];
      SameEvents(raw[..|raw| - 1]);
      SingleField(e, Limit);
      SingleField(e, Is(Introduced));
      SingleField(e, Is(Fixed));
      SingleField(e, Is(LastAffected));
      assert e in raw;
      if e[0].0.Is? {
        assert e[0].0.kind == Introduced || e[0].0.kind == Fixed || e[0].0.kind == LastAffected;
      }
    }
  }

  /**
   * A fix is reported exactly when rangeAffects says affected and the version's interval is
   * closed, and it is the end of that interval.
   */
  lemma BranchFixMatchesRange<V(!new)>(sc: Scale<V>, ok: V -> bool, v: V, raw: seq<RawEvent<V>>)
    requires Placed(sc, ok, v, EventsOf(raw)) && Plain(raw)
    requires Alternating(sc, SortBy(ByAt(sc), EventsOf(raw)))
    ensures var s := SortBy(ByAt(sc), EventsOf(raw));
            && (SaysAffected(sc, v, EventsOf(raw)) <==> exists i: nat :: InInterval(sc, v, s, i))
            && (forall i: nat | InInterval(sc, v, s, i) ::
                  FixFromEvents(sc, v, raw) == if i + 1 < |s| then Some(EndOf(s[i + 1])) else None)
            && (FixFromEvents(sc, v, raw).Some? ==> SaysAffected(sc, v, EventsOf(raw)))
  {
    hide FixWalk, EventsOf, FirstFields, SortBy, CmpV;
    var s := SortBy(ByAt(sc), EventsOf(raw));
    SameEvents(raw);
    SameElements(sc, EventsOf(raw));
    SaysAffectedReadsASet(sc, v, EventsOf(raw), s);
    assert Placed(sc, ok, v, s);
    hide Ranked;
    if SaysAffected(sc, v, s) {
      var i := AffectedInInterval(sc, ok, v, s);
    }
    if FixFromEvents(sc, v, raw).Some? {
      var j := FixIsAnEnd(sc, v, s);
      forall i: nat | InInterval(sc, v, s, i) ensures i == j { OneInterval(sc, ok, v, s, i, j); }
    }
    forall i: nat | InInterval(sc, v, s, i)
      ensures SaysAffected(sc, v, s)
      ensures i + 1 < |s| ==> FixFromEvents(sc, v, raw) == Some(EndOf(s[i + 1]))
    {
      IntervalAffects(sc, ok, v, s, i);
      if i + 1 < |s| { EndIsTheFix(sc, ok, v, s, i); }
    }
  }

  lemma SameElements<V(!new)>(sc: Scale<V>, events: seq<Event<V>>)
    ensures forall e :: e in events <==> e in SortBy(ByAt(sc), events)
  {
    var s := SortBy(ByAt(sc), events);
    forall e ensures e in s <==> e in events {
      assert e in s <==> e in multiset(s);
      assert e in events <==> e in multiset(events);
    }
  }
}
