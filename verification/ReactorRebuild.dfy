/**
 * lib/maven-reactor.js:220-327: every module's dependencies poured into the shared scan set.
 */
module ReactorRebuild {
  import opened Basics
  import opened MavenReactor
  import opened DepRecords

  // ---- The modules as one list of events ----

  function DirectEvents(ds: seq<Direct>): seq<Event> {
    if ds == [] then [] else DirectEvents(ds[..|ds| - 1]) + [Declares(ds[|ds| - 1])]
  }

  /** Transitives whose group is excluded from the scan never count. */
  function ReachEvents(ts: seq<Reach>, pomPath: string, excludes: string -> bool): seq<Event> {
    if ts == [] then []
    else
      var t := ts[|ts| - 1];
      ReachEvents(ts[..|ts| - 1], pomPath, excludes) + if excludes(t.groupId) then [] else [Reaches(t, pomPath)]
  }

  function ModuleEvents(m: ModuleResult, excludes: string -> bool): seq<Event> {
    DirectEvents(m.directs) + ReachEvents(m.transitives, m.pomPath, excludes)
  }

  function EventsOf(results: seq<ModuleResult>, excludes: string -> bool): seq<Event> {
    if results == [] then [] else EventsOf(results[..|results| - 1], excludes) + ModuleEvents(results[|results| - 1], excludes)
  }

  lemma DirectEventsSnoc(ds: seq<Direct>, i: nat)
    requires i < |ds|
    ensures DirectEvents(ds[..i + 1]) == DirectEvents(ds[..i]) + [Declares(ds[i])]
  {
    assert ds[..i + 1][..i] == ds[..i];
  }

  lemma ReachEventsSnoc(ts: seq<Reach>, i: nat, pomPath: string, excludes: string -> bool)
    requires i < |ts|
    ensures ReachEvents(ts[..i + 1], pomPath, excludes) ==
            ReachEvents(ts[..i], pomPath, excludes) + if excludes(ts[i].groupId) then [] else [Reaches(ts[i], pomPath)]
  {
    assert ts[..i + 1][..i] == ts[..i];
  }

  lemma EventsOfSnoc(results: seq<ModuleResult>, i: nat, excludes: string -> bool)
    requires i < |results|
    ensures EventsOf(results[..i + 1], excludes) == EventsOf(results[..i], excludes) + ModuleEvents(results[i], excludes)
  {
    assert results[..i + 1][..i] == results[..i];
  }

  /** What an event stands for: a direct dependency of a module, or a transitive one of a group in the scan. */
  ghost predicate IsEventOf(results: seq<ModuleResult>, excludes: string -> bool, e: Event) {
    match e
    case Declares(d) => exists m :: m in results && d in m.directs
    case Reaches(t, pomPath) => !excludes(t.groupId) && exists m :: m in results && m.pomPath == pomPath && t in m.transitives
  }

  lemma {:induction false} DirectEventsHas(ds: seq<Direct>, e: Event)
    ensures e in DirectEvents(ds) <==> e.Declares? && e.d in ds
  {
    if ds != [] {
      DirectEventsHas(ds[..|ds| - 1], e);
      assert ds == ds[..|ds| - 1] + [ds[|ds| - 1]];
    }
  }

  lemma {:induction false} ReachEventsHas(ts: seq<Reach>, pomPath: string, excludes: string -> bool, e: Event)
    ensures e in ReachEvents(ts, pomPath, excludes) <==> e.Reaches? && e.pomPath == pomPath && e.t in ts && !excludes(e.t.groupId)
  {
    if ts != [] {
      ReachEventsHas(ts[..|ts| - 1], pomPath, excludes, e);
      assert ts == ts[..|ts| - 1] + [ts[|ts| - 1]];
    }
  }

  /** The events are those of the modules, and no others. */
  lemma {:induction false} EventsOfHas(results: seq<ModuleResult>, excludes: string -> bool, e: Event)
    ensures e in EventsOf(results, excludes) <==> IsEventOf(results, excludes, e)
  {
    if results != [] {
      var rest, last := results[..|results| - 1], results[|results| - 1];
      EventsOfHas(rest, excludes, e);
      DirectEventsHas(last.directs, e);
      ReachEventsHas(last.transitives, last.pomPath, excludes, e);
      assert results == rest + [last];
      assert forall m :: m in results <==> m in rest || m == last;
    }
  }

  /** The module declares the coordinate, or reaches it with a version. */
  ghost predicate HoldsCoord(m: ModuleResult, excludes: string -> bool, key: string) {
    || (exists d :: d in m.directs && d.key == key)
    || (exists t :: t in m.transitives && t.key == key && t.version.Some? && !excludes(t.groupId))
  }

  /** What the rebuild keeps, in terms of the modules. */
  lemma SurvivesIffHeld(results: seq<ModuleResult>, excludes: string -> bool, key: string)
    ensures Survives(EventsOf(results, excludes), key) <==> exists m :: m in results && HoldsCoord(m, excludes, key)
  {
    var es := EventsOf(results, excludes);
    forall e ensures e in es <==> IsEventOf(results, excludes, e) { EventsOfHas(results, excludes, e); }
    hide EventsOf;
    if m :| m in results && HoldsCoord(m, excludes, key) {
      if d :| d in m.directs && d.key == key {
        assert Declares(d) in es;
      } else {
        var t :| t in m.transitives && t.key == key && t.version.Some? && !excludes(t.groupId);
        assert Reaches(t, m.pomPath) in es;
        assert Holds(es, key, t.version.value);
      }
    }
    if Survives(es, key) {
      var e :| e in es && KeyOf(e) == key && (e.Declares? || VersionOf(e).Some?);
      assert IsEventOf(results, excludes, e);
    }
  }

  /** After the events, a coordinate keeps a record exactly when some module really holds it. */
  lemma KeptIffSurvives(key: string, es: seq<Event>)
    ensures var b := Fold(key, es);
            && (Kept(b) <==> Survives(es, key))
            && Settleable(b)
  {
    FoldIsExact(key, es);
    var b := Fold(key, es);
    if b.versions != [] {
      assert b.versions[0] in b.versions;
      assert Holds(es, key, b.versions[0]);
    }
    if b.held && !b.declared {
      var e :| e in es && KeyOf(e) == key;
      assert e.Reaches?;
      assert ReachedIn(es, key, e.t.version, e.pomPath);
    }
    if v :| Holds(es, key, v) {
      assert v in b.versions;
      var e :| e in es && KeyOf(e) == key && VersionOf(e) == Some(v);
    }
  }

  lemma {:induction false} NoEvents(key: string, es: seq<Event>)
    requires forall e | e in es :: KeyOf(e) != key
    ensures Fold(key, es) == NOTHING
  {
    if es != [] {
      assert es[|es| - 1] in es;
      NoEvents(key, es[..|es| - 1]);
    }
  }

  lemma OnlyEventsSurvive(key: string, es: seq<Event>)
    requires !HasEvent(es, key)
    ensures !Survives(es, key)
  {
    assert forall e | e in es :: KeyOf(e) != key;
  }

  /** The books after one more event; a foreign coordinate has none. */
  function Poured(books: map<string, Books>, foreign: set<string>, e: Event): map<string, Books> {
    var k := KeyOf(e);
    if k in foreign then books
    else books[k := Record(if k in books then books[k] else NOTHING, e)]
  }

  ghost predicate HasEvent(es: seq<Event>, key: string) {
    exists e :: e in es && KeyOf(e) == key
  }

  function PouredAll(books: map<string, Books>, foreign: set<string>, es: seq<Event>): map<string, Books> {
    if es == [] then books else Poured(PouredAll(books, foreign, es[..|es| - 1]), foreign, es[|es| - 1])
  }

  lemma PouredAllSnoc(books: map<string, Books>, foreign: set<string>, es: seq<Event>, e: Event)
    ensures PouredAll(books, foreign, es + [e]) == Poured(PouredAll(books, foreign, es), foreign, e)
  {
    assert (es + [e])[..|es|] == es;
  }

  lemma {:induction false} PouredAllConcat(books: map<string, Books>, foreign: set<string>, xs: seq<Event>, ys: seq<Event>)
    ensures PouredAll(books, foreign, xs + ys) == PouredAll(PouredAll(books, foreign, xs), foreign, ys)
  {
    if ys == [] {
      assert xs + ys == xs;
    } else {
      var most, e := ys[..|ys| - 1], ys[|ys| - 1];
      PouredAllConcat(books, foreign, xs, most);
      assert xs + ys == (xs + most) + [e];
      PouredAllSnoc(books, foreign, xs + most, e);
    }
  }

  /** From emptied books, the events leave each coordinate exactly the fold of its own. */
  lemma {:induction false} PouredAllIsFold(books: map<string, Books>, foreign: set<string>, es: seq<Event>)
    requires forall k | k in books :: books[k] == NOTHING && k !in foreign
    ensures var after := PouredAll(books, foreign, es);
            && (forall k :: k in after <==> k !in foreign && (k in books || HasEvent(es, k)))
            && (forall k | k in after :: after[k] == Fold(k, es))
  {
    hide Record, HasEvent;
    if es != [] {
      var before, e := es[..|es| - 1], es[|es| - 1];
      PouredAllIsFold(books, foreign, before);
      if !HasEvent(before, KeyOf(e)) { NeverHappened(KeyOf(e), before); }
      EventSnoc(before, e);
      assert es == before + [e];
    } else {
      forall k ensures !HasEvent([], k) { NoEventInNothing(k); }
    }
  }

  lemma NoEventInNothing(key: string)
    ensures !HasEvent([], key)
  {
  }

  lemma NeverHappened(key: string, es: seq<Event>)
    requires !HasEvent(es, key)
    ensures Fold(key, es) == NOTHING
  {
    assert forall e | e in es :: KeyOf(e) != key;
    NoEvents(key, es);
  }

  lemma EventSnoc(es: seq<Event>, e: Event)
    ensures forall k :: HasEvent(es + [e], k) <==> HasEvent(es, k) || KeyOf(e) == k
  {
    forall k ensures HasEvent(es + [e], k) <==> HasEvent(es, k) || KeyOf(e) == k {
      assert forall x :: x in es + [e] <==> x in es || x == e;
    }
  }

  /** A record made for a declaration starts with that declaration's manifest. */
  lemma SeedIsHarmless(d: Direct)
    ensures Record(NOTHING.(manifests := [d.declaredIn]), Declares(d)) == Record(NOTHING, Declares(d))
  {
  }

  /** Making the record first and then recording the event pours the event. */
  lemma PouredInTwoSteps(books: map<string, Books>, foreign: set<string>, seed: Books, e: Event)
    requires Record(seed, e) == Record(NOTHING, e)
    ensures var k := KeyOf(e);
            && (k in books && k !in foreign ==> books[k := Record(books[k], e)] == Poured(books, foreign, e))
            && (k !in books && k !in foreign ==> books[k := seed][k := Record(books[k := seed][k], e)] == Poured(books, foreign, e))
            && (k in foreign ==> books == Poured(books, foreign, e))
  {
    var k := KeyOf(e);
    assert books[k := seed][k := Record(seed, e)] == books[k := Record(seed, e)];
  }

  /** A record to rebuild, in step with its books. */
  ghost predicate InStep(k: string, r: DepRecord, b: Books)
    reads r, r.manifestPaths
  {
    r.coordKey == k && r.manifestPaths.owner == k && r.pomPaths == r.manifestPaths && r.IsCodec() && r.Current() == b
  }

  ghost predicate IsForeign(r: DepRecord, lists: set<PathList>)
    reads r
  {
    !r.IsCodec() && r.manifestPaths !in lists
  }

  /** The final pass keeps a record some module holds, declared or with a version. */
  predicate Kept(b: Books) {
    b.held && (b.versions != [] || b.declared)
  }

  /** A record no module declares was reached through at least one of them. */
  predicate Settleable(b: Books) {
    b.held && !b.declared ==> b.masked != []
  }

  class ScanSet {
    var resolved: map<string, DepRecord>
    /** The books of the records to rebuild, by value; the other records are foreign. */
    ghost var books: map<string, Books>
    /** The records to rebuild, and their path lists. */
    ghost var records: set<DepRecord>
    ghost var lists: set<PathList>
    /** The foreign records. */
    ghost var others: set<DepRecord>

    ghost function ForeignKeys(): set<string>
      reads this
    {
      resolved.Keys - books.Keys
    }

    ghost predicate Valid()
      reads this, records, lists, others
    {
      && books.Keys <= resolved.Keys && records !! others
      && (forall k | k in books :: Ours(k))
      && (forall k | k in resolved && k !in books :: Foreign(k))
    }

    ghost predicate Ours(k: string)
      requires k in resolved && k in books
      reads this, records, lists
    {
      resolved[k] in records && resolved[k].manifestPaths in lists && InStep(k, resolved[k], books[k])
    }

    ghost predicate Foreign(k: string)
      requires k in resolved
      reads this, others
    {
      resolved[k] in others && IsForeign(resolved[k], lists)
    }

    constructor ()
      ensures Valid() && resolved == map[]
    {
      resolved, books, records, lists, others := map[], map[], {}, {}, {};
    }

    method AddForeign(key: string, r: DepRecord)
      requires Valid() && key !in resolved
      requires !r.IsCodec() && r !in records && r.manifestPaths !in lists
      modifies this
      ensures Valid() && resolved == old(resolved)[key := r] && ForeignKeys() == old(ForeignKeys()) + {key}
    {
      resolved, others := resolved[key := r], others + {r};
      forall k | k in books ensures Ours(k) {
        assert old(Ours(k));
      }
      forall k | k in resolved && k !in books ensures Foreign(k) {
        assert k != key ==> old(Foreign(k));
      }
    }

    method Add(key: string, r: DepRecord)
      requires Valid() && key !in resolved
      requires r.coordKey == key && r.manifestPaths.owner == key && r.pomPaths == r.manifestPaths && r.IsCodec()
      requires forall k | k in resolved :: resolved[k] != r && resolved[k].manifestPaths != r.manifestPaths
      requires r !in others
      modifies this
      ensures Valid() && resolved == old(resolved)[key := r] && books == old(books)[key := r.Current()]
      ensures records == old(records) + {r} && lists == old(lists) + {r.manifestPaths}
    {
      resolved, books := resolved[key := r], books[key := r.Current()];
      records, lists := records + {r}, lists + {r.manifestPaths};
      forall k | k in books ensures Ours(k) {
        assert k != key ==> old(k in books && Ours(k));
      }
      forall k | k in resolved && k !in books ensures Foreign(k) {
        assert old(Foreign(k));
      }
    }

    lemma CodecIffBooks(key: string)
      requires Valid() && key in resolved
      ensures resolved[key].IsCodec() <==> key in books
    {
      assert if key in books then Ours(key) else Foreign(key);
    }

    /** The record of `key`, made if there is none; null for a foreign one, which is left alone. */
    method Ensure(key: string, manifest: Option<string>, version: Option<string>, scope: RecordScope) returns (r: DepRecord?)
      requires Valid() && scope != Parent
      modifies this
      ensures Valid() && ForeignKeys() == old(ForeignKeys())
      ensures forall k | k in old(resolved) :: k in resolved && resolved[k] == old(resolved)[k]
      ensures r == null <==> key in ForeignKeys()
      ensures r != null ==> key in books
      ensures r == null || key in old(books) ==> books == old(books)
      ensures r != null && key !in old(books) ==> books == old(books)[key := NOTHING.(manifests := if manifest.Some? then [manifest.value] else [])]
      ensures fresh(records - old(records)) && fresh(lists - old(lists))
    {
      if key in resolved {
        r := if resolved[key].IsCodec() then resolved[key] else null;
        CodecIffBooks(key);
      } else {
        r := new DepRecord(key, manifest, version, scope);
        Add(key, r);
      }
    }

    /** Only the record of `key` and its list changed, and they are in step again. */
    twostate lemma Restored(key: string)
      requires old(Valid()) && key in old(books)
      requires resolved == old(resolved) && records == old(records) && lists == old(lists) && others == old(others)
      requires books.Keys == old(books).Keys && forall k | k in books && k != key :: books[k] == old(books)[k]
      requires Ours(key)
      requires forall k | k in resolved && resolved[k] != resolved[key] :: unchanged(resolved[k])
      requires forall k | k in resolved && old(resolved[k].manifestPaths) != old(resolved[key].manifestPaths) ::
                 unchanged(old(resolved[k].manifestPaths))
      ensures Valid() && ForeignKeys() == old(ForeignKeys())
    {
      forall k | k in books ensures Ours(k) {
        assert old(k in books && Ours(k));
        assert old(Ours(key));
      }
      forall k | k in resolved && k !in books ensures Foreign(k) {
        assert old(Foreign(k));
      }
    }

    method DeclareAt(d: Direct)
      requires Valid() && d.key in books
      modifies this`books, records, lists
      ensures Valid() && ForeignKeys() == old(ForeignKeys())
      ensures books == old(books)[d.key := Record(old(books)[d.key], Declares(d))]
    {
      hide Record, Valid, ForeignKeys;
      Apart(d.key);
      var r := resolved[d.key];
      r.Declare(d);
      books := books[d.key := Record(books[d.key], Declares(d))];
      Restored(d.key);
    }

    method ReachAt(t: Reach, pomPath: string)
      requires Valid() && t.key in books
      modifies this`books, records, lists
      ensures Valid() && ForeignKeys() == old(ForeignKeys())
      ensures books == old(books)[t.key := Record(old(books)[t.key], Reaches(t, pomPath))]
    {
      hide Record, Valid, ForeignKeys;
      Apart(t.key);
      var r := resolved[t.key];
      r.Reached(t, pomPath);
      books := books[t.key := Record(books[t.key], Reaches(t, pomPath))];
      Restored(t.key);
    }

    /** One event poured into the record of its coordinate; every other record is untouched. */
    method PourDeclares(d: Direct)
      requires Valid()
      modifies this, records, lists
      ensures Valid() && ForeignKeys() == old(ForeignKeys())
      ensures forall k | k in old(resolved) :: k in resolved && resolved[k] == old(resolved)[k]
      ensures books == Poured(old(books), old(ForeignKeys()), Declares(d))
      ensures fresh(records - old(records)) && fresh(lists - old(lists))
    {
      hide Record, Valid, Poured, ForeignKeys;
      SeedIsHarmless(d);
      PouredInTwoSteps(books, ForeignKeys(), NOTHING.(manifests := [d.declaredIn]), Declares(d));
      var r := Ensure(d.key, Some(d.declaredIn), d.version, Declared(d.scope));
      if r != null { DeclareAt(d); }
    }

    method PourReaches(t: Reach, pomPath: string)
      requires Valid()
      modifies this, records, lists
      ensures Valid() && ForeignKeys() == old(ForeignKeys())
      ensures forall k | k in old(resolved) :: k in resolved && resolved[k] == old(resolved)[k]
      ensures books == Poured(old(books), old(ForeignKeys()), Reaches(t, pomPath))
      ensures fresh(records - old(records)) && fresh(lists - old(lists))
    {
      hide Record, Valid, Poured, ForeignKeys;
      PouredInTwoSteps(books, ForeignKeys(), NOTHING, Reaches(t, pomPath));
      var r := Ensure(t.key, None, t.version, Transitive);
      if r != null { ReachAt(t, pomPath); }
    }

    // ---- The three passes ----

    method ResetAt(key: string)
      requires Valid() && key in books
      modifies this`books, records, lists
      ensures Valid() && ForeignKeys() == old(ForeignKeys())
      ensures books == old(books)[key := NOTHING]
    {
      hide Valid, ForeignKeys;
      Apart(key);
      var r := resolved[key];
      r.Reset();
      books := books[key := NOTHING];
      Restored(key);
    }

    method ResetIfCodec(key: string)
      requires Valid() && key in resolved
      modifies this`books, records, lists
      ensures Valid() && ForeignKeys() == old(ForeignKeys())
      ensures books == if key in old(books) then old(books)[key := NOTHING] else old(books)
    {
      hide *;
      CodecIffBooks(key);
      if resolved[key].IsCodec() { ResetAt(key); }
    }

    /** Every record to rebuild is emptied; the others are passed over. */
    method ResetAll()
      requires Valid()
      modifies this`books, records, lists
      ensures Valid() && ForeignKeys() == old(ForeignKeys()) && books.Keys == old(books).Keys
      ensures forall k | k in books :: books[k] == NOTHING
    {
      hide Valid, ForeignKeys;
      BooksAreOurs();
      ghost var foreign, mine := ForeignKeys(), books.Keys;
      var todo := resolved.Keys;
      while todo != {}
        invariant Valid() && ForeignKeys() == foreign && books.Keys == mine
        invariant todo <= resolved.Keys
        invariant forall k | k in mine - todo :: books[k] == NOTHING
      {
        var key :| key in todo;
        ResetIfCodec(key);
        todo := todo - {key};
      }
    }

    /** One module's dependencies poured in, its direct ones first. */
    method PourModule(m: ModuleResult, excludes: string -> bool)
      requires Valid()
      modifies this, records, lists
      ensures Valid() && ForeignKeys() == old(ForeignKeys())
      ensures forall k | k in old(resolved) :: k in resolved && resolved[k] == old(resolved)[k]
      ensures books == PouredAll(old(books), old(ForeignKeys()), ModuleEvents(m, excludes))
      ensures fresh(records - old(records)) && fresh(lists - old(lists))
    {
      PourDirects(m);
      PouredAllConcat(old(books), old(ForeignKeys()), DirectEvents(m.directs), ReachEvents(m.transitives, m.pomPath, excludes));
      PourTransitives(m, excludes);
    }

    method PourDirects(m: ModuleResult)
      requires Valid()
      modifies this, records, lists
      ensures Valid() && ForeignKeys() == old(ForeignKeys())
      ensures forall k | k in old(resolved) :: k in resolved && resolved[k] == old(resolved)[k]
      ensures books == PouredAll(old(books), old(ForeignKeys()), DirectEvents(m.directs))
      ensures fresh(records - old(records)) && fresh(lists - old(lists))
    {
      hide Valid, ForeignKeys, Poured;
      for i := 0 to |m.directs|
        invariant Valid() && ForeignKeys() == old(ForeignKeys())
        invariant forall k | k in old(resolved) :: k in resolved && resolved[k] == old(resolved)[k]
        invariant books == PouredAll(old(books), old(ForeignKeys()), DirectEvents(m.directs[..i]))
        invariant fresh(records - old(records)) && fresh(lists - old(lists))
      {
        PouredAllSnoc(old(books), old(ForeignKeys()), DirectEvents(m.directs[..i]), Declares(m.directs[i]));
        DirectEventsSnoc(m.directs, i);
        PourDeclares(m.directs[i]);
      }
      assert m.directs[..|m.directs|] == m.directs;
    }

    method PourTransitives(m: ModuleResult, excludes: string -> bool)
      requires Valid()
      modifies this, records, lists
      ensures Valid() && ForeignKeys() == old(ForeignKeys())
      ensures forall k | k in old(resolved) :: k in resolved && resolved[k] == old(resolved)[k]
      ensures books == PouredAll(old(books), old(ForeignKeys()), ReachEvents(m.transitives, m.pomPath, excludes))
      ensures fresh(records - old(records)) && fresh(lists - old(lists))
    {
      hide Valid, ForeignKeys, Poured;
      for i := 0 to |m.transitives|
        invariant Valid() && ForeignKeys() == old(ForeignKeys())
        invariant forall k | k in old(resolved) :: k in resolved && resolved[k] == old(resolved)[k]
        invariant books == PouredAll(old(books), old(ForeignKeys()), ReachEvents(m.transitives[..i], m.pomPath, excludes))
        invariant fresh(records - old(records)) && fresh(lists - old(lists))
      {
        var t := m.transitives[i];
        ReachEventsSnoc(m.transitives, i, m.pomPath, excludes);
        if excludes(t.groupId) {
          assert ReachEvents(m.transitives[..i + 1], m.pomPath, excludes) == ReachEvents(m.transitives[..i], m.pomPath, excludes);
          continue;
        }
        PouredAllSnoc(old(books), old(ForeignKeys()), ReachEvents(m.transitives[..i], m.pomPath, excludes), Reaches(t, m.pomPath));
        PourReaches(t, m.pomPath);
      }
      assert m.transitives[..|m.transitives|] == m.transitives;
    }

    /** Every module poured in, in order. */
    method PourAll(results: seq<ModuleResult>, excludes: string -> bool)
      requires Valid()
      modifies this, records, lists
      ensures Valid() && ForeignKeys() == old(ForeignKeys())
      ensures forall k | k in old(resolved) :: k in resolved && resolved[k] == old(resolved)[k]
      ensures books == PouredAll(old(books), old(ForeignKeys()), EventsOf(results, excludes))
      ensures fresh(records - old(records)) && fresh(lists - old(lists))
    {
      hide Valid, ForeignKeys, Poured;
      for i := 0 to |results|
        invariant Valid() && ForeignKeys() == old(ForeignKeys())
        invariant forall k | k in old(resolved) :: k in resolved && resolved[k] == old(resolved)[k]
        invariant books == PouredAll(old(books), old(ForeignKeys()), EventsOf(results[..i], excludes))
        invariant fresh(records - old(records)) && fresh(lists - old(lists))
      {
        PouredAllConcat(old(books), old(ForeignKeys()), EventsOf(results[..i], excludes), ModuleEvents(results[i], excludes));
        EventsOfSnoc(results, i, excludes);
        PourModule(results[i], excludes);
      }
      assert results[..|results|] == results;
    }

    /** A kept record that now shows its books. */
    ghost predicate Settles(key: string, cmp: (string, string) -> int, was: map<string, Books>)
      reads this, if key in resolved then {resolved[key], resolved[key].manifestPaths} else {}
    {
      key in was && key in resolved && Kept(was[key]) && resolved[key].Shows(was[key], cmp)
    }

    /** Two records share neither themselves nor their path lists. */
    lemma Apart(key: string)
      requires Valid() && key in books
      ensures books.Keys <= resolved.Keys && Ours(key)
      ensures forall k | k in books && k != key ::
                resolved[k] != resolved[key] && resolved[k].manifestPaths != resolved[key].manifestPaths
    {
      forall k | k in books && k != key
        ensures resolved[k] != resolved[key] && resolved[k].manifestPaths != resolved[key].manifestPaths
      {
        assert Ours(k) && Ours(key);
      }
    }

    method SettleAt(key: string, cmp: (string, string) -> int, ghost was: map<string, Books>) returns (kept: bool)
      requires Valid() && key in books && Settleable(books[key]) && key in was && was[key] == books[key]
      modifies this`books, records, lists
      ensures Valid() && ForeignKeys() == old(ForeignKeys())
      ensures kept == Kept(old(books)[key])
      ensures books.Keys == old(books).Keys && forall k | k in books && k != key :: books[k] == old(books)[k]
      ensures forall k | k in books && k != key && old(Settles(k, cmp, was)) :: Settles(k, cmp, was)
      ensures kept ==> Settles(key, cmp, was)
    {
      hide DepRecord.Shows, Valid, ForeignKeys;
      Apart(key);
      var r := resolved[key];
      kept := r.Settle(cmp);
      books := books[key := r.Current()];
      Restored(key);
    }

    method Remove(key: string)
      requires Valid() && key in books
      modifies this`resolved, this`books
      ensures Valid() && ForeignKeys() == old(ForeignKeys())
      ensures resolved == old(resolved) - {key} && books == old(books) - {key}
    {
      hide InStep, IsForeign;
      resolved, books := resolved - {key}, books - {key};
      forall k | k in books ensures Ours(k) {
        assert old(k in books && Ours(k));
      }
      forall k | k in resolved && k !in books ensures Foreign(k) {
        assert old(Foreign(k));
      }
    }

    /** A record to rebuild is settled, and removed when nothing holds it; another is passed over. */
    method SettleOrRemove(key: string, cmp: (string, string) -> int, ghost was: map<string, Books>) returns (removed: bool)
      requires Valid() && key in resolved && (key in books ==> Settleable(books[key]) && key in was && was[key] == books[key])
      modifies this, records, lists
      ensures Valid() && ForeignKeys() == old(ForeignKeys()) && records == old(records) && lists == old(lists)
      ensures removed <==> key in old(books) && !Kept(old(books)[key])
      ensures resolved == if removed then old(resolved) - {key} else old(resolved)
      ensures forall k | k in books && k != key :: k in old(books) && books[k] == old(books)[k]
      ensures forall k | k in books && k != key && old(Settles(k, cmp, was)) :: Settles(k, cmp, was)
      ensures key in books ==> key in old(books) && Settles(key, cmp, was)
    {
      hide Valid, ForeignKeys, Kept, Settleable, DepRecord.Shows;
      CodecIffBooks(key);
      removed := false;
      if resolved[key].IsCodec() {
        var kept := SettleAt(key, cmp, was);
        if !kept {
          Remove(key);
          removed := true;
        }
      }
    }

    /** Where the final pass stands with one key: to come, kept and shown, or gone. */
    ghost predicate Stage(k: string, cmp: (string, string) -> int, was: map<string, Books>, r: DepRecord, toCome: bool)
      reads this, if k in resolved && k in was then {resolved[k], resolved[k].manifestPaths} else {}
    {
      && (k in resolved ==> resolved[k] == r)
      && (k in was && toCome ==> k in books && books[k] == was[k])
      && (k in was && !toCome ==> if k in resolved then Kept(was[k]) && Settles(k, cmp, was) else !Kept(was[k]))
      && (k !in was ==> k in resolved)
    }

    ghost predicate Settling(cmp: (string, string) -> int, was: map<string, Books>, start: map<string, DepRecord>, todo: set<string>)
      reads this, records, lists, others
    {
      && Valid() && todo <= resolved.Keys <= start.Keys
      && was.Keys <= start.Keys && books.Keys == resolved.Keys * was.Keys
      && forall k | k in start :: Stage(k, cmp, was, start[k], k in todo)
    }

    method SettleStep(key: string, cmp: (string, string) -> int, ghost was: map<string, Books>, ghost start: map<string, DepRecord>,
                      ghost todo: set<string>) returns (removed: bool)
      requires Settling(cmp, was, start, todo) && key in todo
      requires forall k | k in was :: Settleable(was[k])
      modifies this, records, lists
      ensures Settling(cmp, was, start, todo - {key})
      ensures resolved.Keys == if removed then old(resolved).Keys - {key} else old(resolved).Keys
      ensures records == old(records) && lists == old(lists)
    {
      hide Kept, Settleable, Settles;
      assert Stage(key, cmp, was, start[key], true);
      BooksAreOurs();
      removed := SettleOrRemove(key, cmp, was);
      BooksAreOurs();
      hide Valid;
      forall k | k in start ensures Stage(k, cmp, was, start[k], k in todo - {key}) {
        assert old(Stage(k, cmp, was, start[k], k in todo));
      }
    }

    lemma NoneSettled(cmp: (string, string) -> int)
      requires Valid()
      ensures Settling(cmp, books, resolved, resolved.Keys)
    {
      hide Kept, Settles;
    }

    lemma AllSettled(cmp: (string, string) -> int, was: map<string, Books>, start: map<string, DepRecord>)
      requires Settling(cmp, was, start, {})
      ensures start.Keys - resolved.Keys == set k | k in was && !Kept(was[k])
      ensures resolved == start - (start.Keys - resolved.Keys)
      ensures Valid() && ForeignKeys() == start.Keys - was.Keys
      ensures forall k | k in books :: Settles(k, cmp, was)
    {
      hide Kept, Settles;
      forall k | k in start
        ensures k in resolved ==> resolved[k] == start[k]
        ensures k !in resolved <==> k in was && !Kept(was[k])
        ensures k in books ==> Settles(k, cmp, was)
      {
        assert Stage(k, cmp, was, start[k], k in {});
      }
    }

    method SettleAll(cmp: (string, string) -> int) returns (dropped: set<string>)
      requires Valid() && forall k | k in books :: Settleable(books[k])
      modifies this, records, lists
      ensures Settling(cmp, old(books), old(resolved), {})
      ensures dropped == old(resolved).Keys - resolved.Keys
    {
      hide *;
      ghost var was, start := books, resolved;
      dropped := {};
      var todo := resolved.Keys;
      NoneSettled(cmp);
      while todo != {}
        invariant Settling(cmp, was, start, todo)
        invariant forall k | k in start :: k in dropped <==> k !in resolved
        invariant forall k | k in dropped :: k in start
        invariant records == old(records) && lists == old(lists)
      {
        var key :| key in todo;
        var removed := SettleStep(key, cmp, was, start, todo);
        todo := todo - {key};
        if removed { dropped := dropped + {key}; }
      }
    }

    lemma BooksAreOurs()
      requires Valid()
      ensures books.Keys == resolved.Keys - ForeignKeys()
    {
    }

    /** After a rebuild from `es`, one coordinate: in the scan set iff it survives, and showing its events. */
    ghost predicate RebuiltAt(k: string, es: seq<Event>, cmp: (string, string) -> int, before: map<string, DepRecord>)
      reads this, if k in resolved then {resolved[k], resolved[k].manifestPaths} else {}
    {
      && (k in resolved <==> Survives(es, k))
      && (k in resolved ==> resolved[k].Shows(Fold(k, es), cmp) && (k in before ==> resolved[k] == before[k]))
    }

    /** The books the pouring leaves are the folds of the events. */
    ghost predicate BooksOf(was: map<string, Books>, es: seq<Event>, before: map<string, DepRecord>, foreign: set<string>) {
      && (forall k :: k in was <==> k !in foreign && (k in before || HasEvent(es, k)))
      && (forall k | k in was :: was[k] == Fold(k, es))
    }

    lemma PouredAreBooks(emptied: map<string, Books>, es: seq<Event>, before: map<string, DepRecord>, foreign: set<string>)
      requires books == PouredAll(emptied, foreign, es) && foreign <= before.Keys
      requires emptied.Keys == before.Keys - foreign && forall k | k in emptied :: emptied[k] == NOTHING
      ensures BooksOf(books, es, before, foreign)
      ensures forall k | k in books :: Settleable(books[k])
    {
      PouredAllIsFold(emptied, foreign, es);
      forall k | k in books ensures Settleable(books[k]) {
        KeptIffSurvives(k, es);
      }
    }

    lemma ForeignLists()
      requires Valid()
      ensures ForeignKeys() <= resolved.Keys
      ensures forall k | k in ForeignKeys() :: resolved[k] !in records && resolved[k].manifestPaths !in lists
    {
      forall k | k in ForeignKeys() ensures resolved[k] !in records && resolved[k].manifestPaths !in lists {
        assert Foreign(k);
      }
    }

    lemma SettledIsRebuilt(k: string, es: seq<Event>, cmp: (string, string) -> int, was: map<string, Books>,
                           start: map<string, DepRecord>, before: map<string, DepRecord>, foreign: set<string>)
      requires Settling(cmp, was, start, {}) && BooksOf(was, es, before, foreign)
      requires ForeignKeys() == foreign && k !in foreign
      requires forall x | x in before :: x in start && start[x] == before[x]
      ensures RebuiltAt(k, es, cmp, before)
      ensures k in start && k !in resolved <==> (k in before || HasEvent(es, k)) && !Survives(es, k)
    {
      hide Kept, DepRecord.Shows, Fold;
      AllSettled(cmp, was, start);
      KeptIffSurvives(k, es);
      if k !in was { OnlyEventsSurvive(k, es); }
    }

    /**
     * lib/maven-reactor.js:220-327: every record that is not foreign is rebuilt from the modules'
     * events alone; the foreign records and their path lists are untouched.
     */
    method Rebuild(results: seq<ModuleResult>, excludes: string -> bool, cmp: (string, string) -> int)
      returns (modules: nat, dropped: set<string>)
      requires Valid()
      modifies this, records, lists
      ensures Valid() && modules == |results|
      ensures ForeignKeys() == old(ForeignKeys())
      ensures forall k | k in ForeignKeys() :: resolved[k] == old(resolved)[k] && unchanged(resolved[k], resolved[k].manifestPaths)
      ensures forall k | k !in ForeignKeys() :: RebuiltAt(k, EventsOf(results, excludes), cmp, old(resolved))
      ensures forall k :: k in dropped <==>
                k !in ForeignKeys() && (k in old(resolved) || HasEvent(EventsOf(results, excludes), k)) && !Survives(EventsOf(results, excludes), k)
    {
      modules := |results|;
      ghost var es, foreign, before := EventsOf(results, excludes), ForeignKeys(), resolved;
      ForeignLists();
      BooksAreOurs();
      hide *;
      ResetAll();
      ghost var emptied := books;
      PourAll(results, excludes);
      ghost var was, start := books, resolved;
      PouredAreBooks(emptied, es, before, foreign);
      dropped := SettleAll(cmp);
      AllSettled(cmp, was, start);
      forall k | k !in foreign
        ensures RebuiltAt(k, es, cmp, before)
        ensures k in start && k !in resolved <==> (k in before || HasEvent(es, k)) && !Survives(es, k)
      {
        SettledIsRebuilt(k, es, cmp, was, start, before, foreign);
      }
    }
  }
}
