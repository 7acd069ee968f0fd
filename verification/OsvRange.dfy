/**
 * lib/osv-db.js:105-148 and lib/maven-version.js:289-303: OSV event ranges.
 *
 * Versions are any type ranked by a comparator; `zero` is OSV's "0", below every real version,
 * and `star` the unbounded limit.
 */
module OsvRange {
  import opened Basics
  import opened Orders

  datatype Scale<!V> = Scale(cmp: (V, V) -> int, zero: V, star: V)

  function CmpV<V(==)>(sc: Scale<V>, a: V, b: V): int {
    if a == sc.zero || b == sc.zero then if a == b then 0 else if a == sc.zero then -1 else 1
    else sc.cmp(a, b)
  }

  /** What the order ranks, it still ranks together with `zero` once `zero` is below everything. */
  lemma CmpVRanks<V(!new)>(sc: Scale<V>, ok: V -> bool)
    requires RanksOn(sc.cmp, ok)
    ensures RanksOn(ByVersion(sc), (x: V) => x == sc.zero || ok(x))
  {
    var c := ByVersion(sc);
    forall x, y | (x == sc.zero || ok(x)) && (y == sc.zero || ok(y)) ensures Sign(c(x, y)) == -Sign(c(y, x)) {
      assert ok(x) && ok(y) ==> Sign(sc.cmp(x, y)) == -Sign(sc.cmp(y, x));
    }
    forall x, y, z | (x == sc.zero || ok(x)) && (y == sc.zero || ok(y)) && (z == sc.zero || ok(z)) && c(x, y) <= 0 && c(y, z) <= 0
      ensures c(x, z) <= 0
    {
      assert ok(x) && ok(y) && ok(z) && sc.cmp(x, y) <= 0 && sc.cmp(y, z) <= 0 ==> sc.cmp(x, z) <= 0;
    }
  }

  // ---- Events ----

  datatype Kind = Introduced | LastAffected | Fixed

  datatype Event<V> = Event(kind: Kind, at: V)

  datatype Key = Is(kind: Kind) | Limit | Other

  /** An event object: its fields in order, keys distinct. */
  type RawEvent<V> = seq<(Key, V)>

  datatype Range<V> = Range(isGit: bool, events: seq<RawEvent<V>>)

  function ValueOf<V>(e: RawEvent<V>, k: Key): Option<V> {
    if e == [] then None else if e[0].0 == k then Some(e[0].1) else ValueOf(e[1..], k)
  }

  /** What rangeAffects reads in an event: never one that also carries a limit. */
  function EventOf<V>(e: RawEvent<V>): Option<Event<V>> {
    if ValueOf(e, Limit).Some? then None
    else if ValueOf(e, Is(Introduced)).Some? then Some(Event(Introduced, ValueOf(e, Is(Introduced)).value))
    else if ValueOf(e, Is(Fixed)).Some? then Some(Event(Fixed, ValueOf(e, Is(Fixed)).value))
    else if ValueOf(e, Is(LastAffected)).Some? then Some(Event(LastAffected, ValueOf(e, Is(LastAffected)).value))
    else None
  }

  function EventsOf<V>(raw: seq<RawEvent<V>>): seq<Event<V>> {
    if raw == [] then []
    else
      var e := EventOf(raw[|raw| - 1]);
      EventsOf(raw[..|raw| - 1]) + if e.Some? then [e.value] else []
  }

  function LimitsOf<V>(raw: seq<RawEvent<V>>): seq<V> {
    if raw == [] then []
    else
      var l := ValueOf(raw[|raw| - 1], Limit);
      LimitsOf(raw[..|raw| - 1]) + if l.Some? then [l.value] else []
  }

  function EventRank(k: Kind): nat {
    match k case Introduced => 0 case LastAffected => 1 case Fixed => 2
  }

  /** By version, and at one version introduced < last_affected < fixed. */
  function CmpEvent<V(==)>(sc: Scale<V>, a: Event<V>, b: Event<V>): int {
    var c := CmpV(sc, a.at, b.at);
    if c != 0 then c else EventRank(a.kind) - EventRank(b.kind)
  }

  function ByVersion<V(==)>(sc: Scale<V>): (V, V) -> int {
    (a, b) => CmpV(sc, a, b)
  }

  function ByEvent<V(==)>(sc: Scale<V>): (Event<V>, Event<V>) -> int {
    (a, b) => CmpEvent(sc, a, b)
  }

  /** The order ranks the versions of the events, `zero` aside. */
  ghost predicate Ranked<V(!new)>(sc: Scale<V>, ok: V -> bool, events: seq<Event<V>>) {
    RanksOn(sc.cmp, ok) && forall e | e in events :: e.at == sc.zero || ok(e.at)
  }

  function Rankable<V(==)>(sc: Scale<V>, ok: V -> bool): Event<V> -> bool {
    (e: Event<V>) => e.at == sc.zero || ok(e.at)
  }

  lemma CmpEventRanks<V(!new)>(sc: Scale<V>, ok: V -> bool)
    requires RanksOn(sc.cmp, ok)
    ensures RanksOn(ByEvent(sc), Rankable(sc, ok))
  {
    var v, okv, c, oke := ByVersion(sc), (x: V) => x == sc.zero || ok(x), ByEvent(sc), Rankable(sc, ok);
    CmpVRanks(sc, ok);
    forall x, y | oke(x) && oke(y) ensures Sign(c(x, y)) == -Sign(c(y, x)) {
      assert okv(x.at) && okv(y.at) && Sign(v(x.at, y.at)) == -Sign(v(y.at, x.at));
    }
    forall x, y, z | oke(x) && oke(y) && oke(z) && c(x, y) <= 0 && c(y, z) <= 0 ensures c(x, z) <= 0 {
      assert okv(x.at) && okv(y.at) && okv(z.at);
      RanksOfThree(v, okv, x.at, y.at, z.at);
    }
  }

  lemma RanksOfThree<V(!new)>(cmp: (V, V) -> int, ok: V -> bool, x: V, y: V, z: V)
    requires RanksOn(cmp, ok) && ok(x) && ok(y) && ok(z) && cmp(x, y) <= 0 && cmp(y, z) <= 0
    ensures cmp(x, z) <= 0
    ensures cmp(x, z) == 0 ==> cmp(x, y) == 0 && cmp(y, z) == 0
  {
    assert Sign(cmp(x, z)) == -Sign(cmp(z, x)) && Sign(cmp(x, y)) == -Sign(cmp(y, x)) && Sign(cmp(y, z)) == -Sign(cmp(z, y));
    assert cmp(z, x) <= 0 && cmp(x, y) <= 0 ==> cmp(z, y) <= 0;
    assert cmp(y, z) <= 0 && cmp(z, x) <= 0 ==> cmp(y, x) <= 0;
  }

  // ---- Which event decides ----

  /** Version `v` is at or past the event (strictly past an inclusive last_affected). */
  predicate Fires<V(==)>(sc: Scale<V>, v: V, e: Event<V>) {
    if e.kind == LastAffected then CmpV(sc, v, e.at) > 0 else CmpV(sc, v, e.at) >= 0
  }

  /** `e` is an `introduced` that fires on `v`, and no event that fires is greater. */
  ghost predicate Decides<V>(sc: Scale<V>, v: V, events: seq<Event<V>>, e: Event<V>) {
    && e in events && e.kind == Introduced && Fires(sc, v, e)
    && forall f | f in events && Fires(sc, v, f) :: CmpEvent(sc, f, e) <= 0
  }

  ghost predicate SaysAffected<V(!new)>(sc: Scale<V>, v: V, events: seq<Event<V>>) {
    exists e :: Decides(sc, v, events, e)
  }

  predicate WithinLimits<V(==)>(sc: Scale<V>, v: V, limits: seq<V>) {
    limits == [] || exists l | l in limits :: l == sc.star || CmpV(sc, v, l) < 0
  }

  /** The state machine over events in evaluation order. */
  function Walk<V(==)>(sc: Scale<V>, v: V, events: seq<Event<V>>): bool {
    if events == [] then false
    else
      var e := events[|events| - 1];
      if Fires(sc, v, e) then e.kind == Introduced else Walk(sc, v, events[..|events| - 1])
  }

  lemma LastIsGreatest<V(!new)>(sc: Scale<V>, ok: V -> bool, s: seq<Event<V>>)
    requires Ranked(sc, ok, s) && s != [] && SortedBy(ByEvent(sc), s)
    ensures forall e | e in s ::
              && CmpEvent(sc, e, s[|s| - 1]) <= 0
              && (CmpEvent(sc, s[|s| - 1], e) <= 0 ==> e.kind == s[|s| - 1].kind)
  {
    hide CmpV, RanksOn;
    var cmp, oke, last := ByEvent(sc), Rankable(sc, ok), s[|s| - 1];
    CmpEventRanks(sc, ok);
    forall e | e in s
      ensures CmpEvent(sc, e, last) <= 0 && (CmpEvent(sc, last, e) <= 0 ==> e.kind == last.kind)
    {
      var i :| 0 <= i < |s| && s[i] == e;
      assert oke(e) && oke(last) && Sign(cmp(e, last)) == -Sign(cmp(last, e)) && Sign(cmp(last, last)) == -Sign(cmp(last, last));
      assert i < |s| - 1 ==> cmp(s[i], s[|s| - 1]) <= 0;
    }
  }

  /** On any sorted list the state machine decides by the greatest event that fires. */
  lemma {:induction false} WalkDecides<V(!new)>(sc: Scale<V>, ok: V -> bool, v: V, s: seq<Event<V>>)
    requires Ranked(sc, ok, s) && SortedBy(ByEvent(sc), s)
    ensures Walk(sc, v, s) <==> SaysAffected(sc, v, s)
  {
    if s != [] {
      var rest, last := s[..|s| - 1], s[|s| - 1];
      assert s == rest + [last];
      LastIsGreatest(sc, ok, s);
      hide RanksOn;
      if Fires(sc, v, last) {
        assert last.kind == Introduced ==> Decides(sc, v, s, last);
      } else {
        WalkDecides(sc, ok, v, rest);
        forall e ensures Decides(sc, v, s, e) <==> Decides(sc, v, rest, e) {
          assert e in s <==> e in rest || e == last;
        }
      }
    }
  }

  /** Only which events there are matters, not how the record lists them. */
  lemma SaysAffectedReadsASet<V(!new)>(sc: Scale<V>, v: V, s: seq<Event<V>>, t: seq<Event<V>>)
    requires forall e :: e in s <==> e in t
    ensures SaysAffected(sc, v, s) <==> SaysAffected(sc, v, t)
  {
    forall e ensures Decides(sc, v, s, e) <==> Decides(sc, v, t, e) { }
  }

  // ---- The evaluator ----

  method ReadRange<V>(raw: seq<RawEvent<V>>) returns (events: seq<Event<V>>, limits: seq<V>)
    ensures events == EventsOf(raw) && limits == LimitsOf(raw)
  {
    events, limits := [], [];
    for i := 0 to |raw|
      invariant events == EventsOf(raw[..i]) && limits == LimitsOf(raw[..i])
    {
      var e := raw[i];
      assert raw[..i + 1][..i] == raw[..i];
      if ValueOf(e, Limit).Some? {
        limits := limits + [ValueOf(e, Limit).value];
      } else if EventOf(e).Some? {
        events := events + [EventOf(e).value];
      }
    }
    assert raw[..|raw|] == raw;
  }

  method WalkEvents<V(==)>(sc: Scale<V>, v: V, events: seq<Event<V>>) returns (affected: bool)
    ensures affected == Walk(sc, v, events)
  {
    affected := false;
    for i := 0 to |events|
      invariant affected == Walk(sc, v, events[..i])
    {
      assert events[..i + 1][..i] == events[..i];
      var e := events[i];
      var c := CmpV(sc, v, e.at);
      if e.kind == Introduced {
        if c >= 0 { affected := true; }
      } else if e.kind == Fixed {
        if c >= 0 { affected := false; }
      } else if c > 0 {
        affected := false;
      }
    }
    assert events[..|events|] == events;
  }

  /** What the evaluation of a range comes to, whatever the order is. */
  predicate RangeSays<V(==)>(sc: Scale<V>, v: V, range: Range<V>) {
    && !range.isGit
    && WithinLimits(sc, v, LimitsOf(range.events))
    && Walk(sc, v, SortBy(ByEvent(sc), EventsOf(range.events)))
  }

  method RangeAffects<V(==)>(sc: Scale<V>, v: V, range: Range<V>) returns (affected: bool)
    ensures affected == RangeSays(sc, v, range)
  {
    if range.isGit { return false; }
    var events, limits := ReadRange(range.events);
    if !WithinLimits(sc, v, limits) { return false; }
    var sorted := SortBy(ByEvent(sc), events);
    affected := WalkEvents(sc, v, sorted);
  }

  /** As the schema defines it: the greatest event that fires on the version is an introduction. */
  lemma RangeSaysByGreatest<V(!new)>(sc: Scale<V>, ok: V -> bool, v: V, range: Range<V>)
    requires Ranked(sc, ok, EventsOf(range.events))
    ensures RangeSays(sc, v, range) <==>
            && !range.isGit
            && WithinLimits(sc, v, LimitsOf(range.events))
            && SaysAffected(sc, v, EventsOf(range.events))
  {
    hide WithinLimits, LimitsOf, EventsOf, Walk, SortBy, CmpV, SaysAffected;
    var events := EventsOf(range.events);
    var sorted := SortBy(ByEvent(sc), events);
    CmpEventRanks(sc, ok);
    SortBySortedOn(ByEvent(sc), Rankable(sc, ok), events);
    WalkDecides(sc, ok, v, sorted);
    SaysAffectedReadsASet(sc, v, events, sorted);
  }
}
