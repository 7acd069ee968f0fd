/**
 * lib/cve-match.js:51-163, 207-213, 330-381: the scan set collected from the merged POMs, and what
 * becomes of the coordinates that are only managed.
 *
 * Interpolation is a parameter; a version that is absent is the empty string.
 */
module Collection {
  import opened Basics
  import opened Orders
  import opened MavenReactor

  /** A module that resolves a version transitively; older data has no scope. */
  datatype Origin = Origin(version: string, module_: string, via: seq<string>, depth: nat, scope: Option<Scope>)

  datatype Occurrence = Occurrence(version: string, manifest: string)

  datatype DepRec = DepRec(
    ecosystem: string,
    version: string,
    scope: RecordScope,
    isDev: bool,
    managedOnly: bool,
    books: Books,
    origins: seq<Origin>,
    occurrences: Option<seq<Occurrence>>,
    via: seq<string>,
    depth: nat,
    managedIn: seq<string>)

  datatype RawDep = RawDep(groupId: string, artifactId: string, version: string, scope: Scope)

  datatype Pom = Pom(path: string, dependencies: seq<RawDep>, management: seq<RawDep>)

  datatype Options = Options(ignoreTest: bool, excludes: string -> bool, interpolate: (string, string) -> string)

  /** An accepted entry: a declaration, or a version pin that declares nothing. */
  datatype Entry = Entry(key: string, version: string, scope: Scope, pom: string, pin: bool)

  predicate HasPlaceholder(v: string) {
    exists i :: 0 <= i < |v| - 1 && v[i] == '$' && v[i + 1] == '{'
  }

  predicate IsConcrete(v: string) {
    v != "" && !HasPlaceholder(v)
  }

  function EventOf(e: Entry): Event {
    Declares(Direct(e.key, if IsConcrete(e.version) then Some(e.version) else None, e.scope, e.pom))
  }

  predicate Accepts(o: Options, pom: string, raw: RawDep) {
    raw.groupId != "" && raw.artifactId != "" && !(o.ignoreTest && raw.scope == Test) && !o.excludes(o.interpolate(pom, raw.groupId))
  }

  function EntryOf(o: Options, pom: string, raw: RawDep, managed: bool): Entry {
    Entry(o.interpolate(pom, raw.groupId) + ":" + o.interpolate(pom, raw.artifactId),
          if raw.version == "" then "" else o.interpolate(pom, raw.version),
          raw.scope, pom, managed && raw.scope != Named("import"))
  }

  function EntriesOfList(o: Options, pom: string, deps: seq<RawDep>, managed: bool): seq<Entry> {
    if deps == [] then []
    else
      var raw := deps[|deps| - 1];
      EntriesOfList(o, pom, deps[..|deps| - 1], managed) + if Accepts(o, pom, raw) then [EntryOf(o, pom, raw, managed)] else []
  }

  /** Every accepted entry, POM by POM, declarations before pins. */
  function EntriesOf(o: Options, poms: seq<Pom>): seq<Entry> {
    if poms == [] then []
    else
      var p := poms[|poms| - 1];
      EntriesOf(o, poms[..|poms| - 1]) + (EntriesOfList(o, p.path, p.dependencies, false) + EntriesOfList(o, p.path, p.management, true))
  }

  /** What an entry stands for: a dependency, or a managed one, of a POM. */
  ghost predicate IsEntryOf(o: Options, poms: seq<Pom>, e: Entry) {
    exists p, raw, managed :: p in poms && raw in ListOf(p, managed) && Accepts(o, p.path, raw) && e == EntryOf(o, p.path, raw, managed)
  }

  function ListOf(p: Pom, managed: bool): seq<RawDep> {
    if managed then p.management else p.dependencies
  }

  lemma {:induction false} EntriesOfListHas(o: Options, pom: string, deps: seq<RawDep>, managed: bool, e: Entry)
    ensures e in EntriesOfList(o, pom, deps, managed) <==> exists raw :: raw in deps && Accepts(o, pom, raw) && e == EntryOf(o, pom, raw, managed)
  {
    if deps != [] {
      var rest, last := deps[..|deps| - 1], deps[|deps| - 1];
      EntriesOfListHas(o, pom, rest, managed, e);
      hide Accepts, EntryOf;
      assert deps == rest + [last];
      assert forall raw :: raw in deps <==> raw in rest || raw == last;
    }
  }

  /** The entries are those of the POMs, and no others. */
  lemma {:induction false} EntriesOfHas(o: Options, poms: seq<Pom>, e: Entry)
    ensures e in EntriesOf(o, poms) <==> IsEntryOf(o, poms, e)
  {
    if poms != [] {
      var rest, p := poms[..|poms| - 1], poms[|poms| - 1];
      EntriesOfHas(o, rest, e);
      EntriesOfListHas(o, p.path, p.dependencies, false, e);
      EntriesOfListHas(o, p.path, p.management, true, e);
      hide Accepts, EntryOf, EntriesOfList;
      assert poms == rest + [p];
      assert forall x :: x in poms <==> x in rest || x == p;
      assert ListOf(p, false) == p.dependencies && ListOf(p, true) == p.management;
    }
  }

  // ---- One entry ----

  function NewRec(e: Entry): DepRec {
    DepRec("maven", e.version, Declared(e.scope), IsDevScope(e.scope), e.pin, Record(NOTHING, EventOf(e)), [], None, [], 0, [])
  }

  function Merged(cmp: (string, string) -> int, r: DepRec, e: Entry): DepRec {
    r.(managedOnly := r.managedOnly && e.pin,
       scope := if r.scope == Declared(Test) && e.scope != Test then Declared(e.scope) else r.scope,
       version := if e.version != "" && (r.version == "" || cmp(e.version, r.version) > 0) then e.version else r.version,
       isDev := r.isDev && IsDevScope(e.scope),
       books := Record(r.books, EventOf(e)))
  }

  type ScanMap = map<string, DepRec>

  function Entered(cmp: (string, string) -> int, out: ScanMap, e: Entry): ScanMap {
    out[e.key := if e.key in out then Merged(cmp, out[e.key], e) else NewRec(e)]
  }

  function AllEntered(cmp: (string, string) -> int, out: ScanMap, es: seq<Entry>): ScanMap {
    if es == [] then out else Entered(cmp, AllEntered(cmp, out, es[..|es| - 1]), es[|es| - 1])
  }

  lemma {:induction false} AllEnteredConcat(cmp: (string, string) -> int, out: ScanMap, xs: seq<Entry>, ys: seq<Entry>)
    ensures AllEntered(cmp, out, xs + ys) == AllEntered(cmp, AllEntered(cmp, out, xs), ys)
  {
    hide Entered;
    var all := xs + ys;
    if ys == [] {
      assert all == xs;
    } else {
      AllEnteredConcat(cmp, out, xs, ys[..|ys| - 1]);
      assert all[..|all| - 1] == xs + ys[..|ys| - 1] && all[|all| - 1] == ys[|ys| - 1];
    }
  }

  method CollectFrom(o: Options, cmp: (string, string) -> int, before: ScanMap, pom: string, deps: seq<RawDep>, managed: bool) returns (out: ScanMap)
    ensures out == AllEntered(cmp, before, EntriesOfList(o, pom, deps, managed))
  {
    out := before;
    NoneEntered(cmp, before);
    hide AllEntered, Entered, Accepts, EntryOf, Merged, NewRec;
    for i := 0 to |deps|
      invariant out == AllEntered(cmp, before, EntriesOfList(o, pom, deps[..i], managed))
    {
      EntriesOfListSnoc(o, pom, deps, i, managed);
      if Accepts(o, pom, deps[i]) {
        var e := EntryOf(o, pom, deps[i], managed);
        AllEnteredSnoc(cmp, before, EntriesOfList(o, pom, deps[..i], managed), e);
        out := out[e.key := if e.key in out then Merged(cmp, out[e.key], e) else NewRec(e)];
      }
    }
    assert deps[..|deps|] == deps;
  }

  lemma NoneEntered(cmp: (string, string) -> int, out: ScanMap)
    ensures AllEntered(cmp, out, []) == out
  {
  }

  lemma AllEnteredSnoc(cmp: (string, string) -> int, out: ScanMap, es: seq<Entry>, e: Entry)
    ensures var before := AllEntered(cmp, out, es);
            AllEntered(cmp, out, es + [e]) == before[e.key := if e.key in before then Merged(cmp, before[e.key], e) else NewRec(e)]
  {
    assert (es + [e])[..|es|] == es;
  }

  lemma EntriesOfListSnoc(o: Options, pom: string, deps: seq<RawDep>, i: nat, managed: bool)
    requires i < |deps|
    ensures EntriesOfList(o, pom, deps[..i + 1], managed) ==
            EntriesOfList(o, pom, deps[..i], managed) + if Accepts(o, pom, deps[i]) then [EntryOf(o, pom, deps[i], managed)] else []
    ensures EntriesOfList(o, pom, deps[..i], managed) + [] == EntriesOfList(o, pom, deps[..i], managed)
  {
    assert deps[..i + 1][..i] == deps[..i];
  }

  method Collect(o: Options, cmp: (string, string) -> int, poms: seq<Pom>) returns (out: ScanMap)
    ensures out == AllEntered(cmp, map[], EntriesOf(o, poms))
  {
    out := map[];
    for i := 0 to |poms|
      invariant out == AllEntered(cmp, map[], EntriesOf(o, poms[..i]))
    {
      var p := poms[i];
      assert poms[..i + 1][..i] == poms[..i];
      AllEnteredConcat(cmp, map[], EntriesOf(o, poms[..i]),
                       EntriesOfList(o, p.path, p.dependencies, false) + EntriesOfList(o, p.path, p.management, true));
      AllEnteredConcat(cmp, out, EntriesOfList(o, p.path, p.dependencies, false), EntriesOfList(o, p.path, p.management, true));
      out := CollectFrom(o, cmp, out, p.path, p.dependencies, false);
      out := CollectFrom(o, cmp, out, p.path, p.management, true);
    }
    assert poms[..|poms|] == poms;
  }

  // ---- What was collected ----

  function Events(es: seq<Entry>): seq<Event> {
    seq(|es|, i requires 0 <= i < |es| => EventOf(es[i]))
  }

  ghost predicate IsOfKey(es: seq<Entry>, key: string, e: Entry) {
    e in es && e.key == key
  }

  ghost predicate Mentioned(es: seq<Entry>, key: string) {
    exists e :: IsOfKey(es, key, e)
  }

  ghost predicate OnlyDev(es: seq<Entry>, key: string) {
    forall e | IsOfKey(es, key, e) :: IsDevScope(e.scope)
  }

  ghost predicate OnlyPinned(es: seq<Entry>, key: string) {
    forall e | IsOfKey(es, key, e) :: e.pin
  }

  /** Some entry of the coordinate states the version; "" stands for none stated at all. */
  ghost predicate IsStated(es: seq<Entry>, key: string, v: string) {
    if v == "" then forall e | IsOfKey(es, key, e) :: e.version == ""
    else exists e :: IsOfKey(es, key, e) && e.version == v
  }

  /** A record holds its coordinate's entries and no others, however versions compare. */
  ghost predicate Collects(out: ScanMap, es: seq<Entry>, key: string) {
    && (key in out <==> Mentioned(es, key))
    && (key in out ==>
          var r := out[key];
          && r.books == Fold(key, Events(es)) && r.origins == [] && r.occurrences == None && r.ecosystem == "maven"
          && r.via == [] && r.depth == 0 && r.managedIn == []
          && (r.isDev <==> OnlyDev(es, key)) && (r.managedOnly <==> OnlyPinned(es, key))
          && IsStated(es, key, r.version))
  }

  lemma OneMore(es: seq<Entry>, last: Entry, key: string)
    ensures forall e :: IsOfKey(es + [last], key, e) <==> IsOfKey(es, key, e) || (e == last && last.key == key)
    ensures Mentioned(es + [last], key) <==> Mentioned(es, key) || last.key == key
    ensures OnlyDev(es + [last], key) <==> OnlyDev(es, key) && (last.key == key ==> IsDevScope(last.scope))
    ensures OnlyPinned(es + [last], key) <==> OnlyPinned(es, key) && (last.key == key ==> last.pin)
  {
    assert forall e :: IsOfKey(es + [last], key, e) <==> IsOfKey(es, key, e) || (e == last && last.key == key);
    assert last.key == key ==> IsOfKey(es + [last], key, last);
  }

  /** The version a record shows after one more entry of its coordinate. */
  function Shown(cmp: (string, string) -> int, v: string, last: Entry): string {
    if last.version != "" && (v == "" || cmp(last.version, v) > 0) then last.version else v
  }

  lemma StatedStays(cmp: (string, string) -> int, es: seq<Entry>, last: Entry, key: string, v: string)
    requires IsStated(es, key, v)
    ensures last.key != key ==> IsStated(es + [last], key, v)
    ensures last.key == key ==> IsStated(es + [last], key, Shown(cmp, v, last))
  {
    OneMore(es, last, key);
    var w := if last.key == key then Shown(cmp, v, last) else v;
    if w != "" {
      if w == v {
        var e :| IsOfKey(es, key, e) && e.version == v;
        assert IsOfKey(es + [last], key, e);
      } else {
        assert IsOfKey(es + [last], key, last);
      }
    }
  }

  lemma {:induction false} CollectsExactly(cmp: (string, string) -> int, es: seq<Entry>, key: string)
    ensures Collects(AllEntered(cmp, map[], es), es, key)
  {
    if es == [] {
      assert forall e :: !IsOfKey(es, key, e);
    } else {
      var most, last := es[..|es| - 1], es[|es| - 1];
      CollectsExactly(cmp, most, key);
      assert es == most + [last];
      assert Events(es) == Events(most) + [EventOf(last)];
      FoldSnoc(key, Events(most), EventOf(last));
      OneMore(most, last, key);
      var out := AllEntered(cmp, map[], most);
      if key in out {
        StatedStays(cmp, most, last, key, out[key].version);
      } else {
        FirstOfKey(most, last, key);
      }
      hide IsStated, OnlyDev, OnlyPinned, Mentioned, Fold, Record;
      assert AllEntered(cmp, map[], es) == Entered(cmp, out, last);
    }
  }

  lemma FirstOfKey(es: seq<Entry>, last: Entry, key: string)
    requires !Mentioned(es, key)
    ensures Fold(key, Events(es)) == NOTHING && OnlyDev(es, key) && OnlyPinned(es, key)
    ensures last.key == key ==> IsStated(es + [last], key, last.version)
  {
    OneMore(es, last, key);
    NoEventsYet(es, key);
    assert last.key == key ==> IsOfKey(es + [last], key, last);
  }

  // ---- The version shown ----

  ghost predicate Ranked(ok: string -> bool, es: seq<Entry>, key: string) {
    forall e | IsOfKey(es, key, e) && e.version != "" :: ok(e.version)
  }

  ghost predicate IsHighest(cmp: (string, string) -> int, es: seq<Entry>, key: string, v: string) {
    forall e | IsOfKey(es, key, e) && e.version != "" :: v != "" && cmp(e.version, v) <= 0
  }

  /** Where the comparison ranks the versions stated, the record shows the highest of them. */
  lemma {:induction false} ShowsHighest(cmp: (string, string) -> int, ok: string -> bool, es: seq<Entry>, key: string)
    requires RanksOn(cmp, ok) && Ranked(ok, es, key) && key in AllEntered(cmp, map[], es)
    ensures IsHighest(cmp, es, key, AllEntered(cmp, map[], es)[key].version)
  {
    var most, last := es[..|es| - 1], es[|es| - 1];
    assert es == most + [last];
    var out := AllEntered(cmp, map[], most);
    EnteredVersion(cmp, out, last, key);
    CollectsExactly(cmp, most, key);
    hide RanksOn, IsHighest, IsStated, Ranked, Merged, NewRec, Fold, OnlyDev, OnlyPinned, Mentioned;
    RankedFewer(ok, most, last, key);
    if key in out {
      ShowsHighest(cmp, ok, most, key);
      HighestStays(cmp, ok, most, last, key, out[key].version);
    } else {
      FirstIsHighest(cmp, ok, most, last, key);
    }
  }

  lemma RankedFewer(ok: string -> bool, es: seq<Entry>, last: Entry, key: string)
    requires Ranked(ok, es + [last], key)
    ensures Ranked(ok, es, key)
  {
    OneMore(es, last, key);
  }

  lemma EnteredVersion(cmp: (string, string) -> int, out: ScanMap, last: Entry, key: string)
    requires key in Entered(cmp, out, last)
    ensures key in out || last.key == key
    ensures Entered(cmp, out, last)[key].version ==
            if last.key != key then out[key].version else if key in out then Shown(cmp, out[key].version, last) else last.version
  {
  }

  lemma FirstIsHighest(cmp: (string, string) -> int, ok: string -> bool, es: seq<Entry>, last: Entry, key: string)
    requires RanksOn(cmp, ok) && Ranked(ok, es + [last], key) && !Mentioned(es, key) && last.key == key
    ensures IsHighest(cmp, es + [last], key, last.version)
  {
    OneMore(es, last, key);
    assert IsOfKey(es + [last], key, last);
    assert last.version != "" ==> Sign(cmp(last.version, last.version)) == -Sign(cmp(last.version, last.version));
  }

  lemma HighestStays(cmp: (string, string) -> int, ok: string -> bool, es: seq<Entry>, last: Entry, key: string, v: string)
    requires RanksOn(cmp, ok) && Ranked(ok, es + [last], key) && IsHighest(cmp, es, key, v) && IsStated(es, key, v)
    ensures IsHighest(cmp, es + [last], key, if last.key == key then Shown(cmp, v, last) else v)
  {
    OneMore(es, last, key);
    var w := if last.key == key then Shown(cmp, v, last) else v;
    if v != "" { assert ok(v); }
    forall e | IsOfKey(es + [last], key, e) && e.version != "" ensures w != "" && cmp(e.version, w) <= 0 {
      assert ok(e.version);
      assert ok(last.version) ==> Sign(cmp(last.version, last.version)) == -Sign(cmp(last.version, last.version));
      assert ok(last.version) && ok(v) ==> Sign(cmp(last.version, v)) == -Sign(cmp(v, last.version));
      assert last.key == key && last.version != "" ==> ok(last.version);
    }
  }

  lemma {:induction false} NoEventsYet(es: seq<Entry>, key: string)
    requires !Mentioned(es, key)
    ensures Fold(key, Events(es)) == NOTHING
  {
    if es != [] {
      var most, last := es[..|es| - 1], es[|es| - 1];
      assert es == most + [last];
      OneMore(most, last, key);
      NoEventsYet(most, key);
      assert Events(es) == Events(most) + [EventOf(last)];
      FoldSnoc(key, Events(most), EventOf(last));
    }
  }

  /** lib/cve-match.js:165-177: an external parent POM enters only where no dependency has its coordinate. */
  datatype ExternalParent = ExternalParent(key: string, version: string, pom: string)

  function ParentRec(p: ExternalParent): DepRec {
    var concrete := IsConcrete(p.version);
    DepRec("maven", p.version, Parent, false, false,
           NOTHING.(manifests := [p.pom], versions := if concrete then [p.version] else [],
                    versionPaths := if concrete then map[p.version := [p.pom]] else map[]),
           [], None, [], 0, [])
  }

  /** The first external parent with the coordinate. */
  ghost predicate IsFirstParent(parents: seq<ExternalParent>, k: string, i: nat) {
    i < |parents| && parents[i].key == k && forall j | 0 <= j < i :: parents[j].key != k
  }

  method AddParents(before: ScanMap, parents: seq<ExternalParent>) returns (out: ScanMap)
    ensures forall k | k in before :: k in out && out[k] == before[k]
    ensures forall k | k in out && k !in before :: exists i: nat :: IsFirstParent(parents, k, i) && out[k] == ParentRec(parents[i])
    ensures forall i | 0 <= i < |parents| :: parents[i].key in out
  {
    out := before;
    for n := 0 to |parents|
      invariant forall k | k in before :: k in out && out[k] == before[k]
      invariant forall k | k in out && k !in before :: exists i: nat :: i < n && IsFirstParent(parents, k, i) && out[k] == ParentRec(parents[i])
      invariant forall i | 0 <= i < n :: parents[i].key in out
    {
      hide ParentRec;
      if parents[n].key !in out {
        assert IsFirstParent(parents, parents[n].key, n);
        hide IsFirstParent;
        out := out[parents[n].key := ParentRec(parents[n])];
      }
    }
  }

  // ---- Exclusions ----

  /** What every declaration excludes, and nothing else, each once. */
  method CommonExclusions(sets: seq<seq<string>>) returns (acc: seq<string>)
    ensures sets == [] ==> acc == []
    ensures Distinct(acc)
    ensures sets != [] ==> forall x :: x in acc <==> forall i | 0 <= i < |sets| :: x in sets[i]
  {
    if sets == [] { return []; }
    acc := [];
    for i := 0 to |sets[0]|
      invariant Distinct(acc) && forall x :: x in acc <==> x in sets[0][..i]
    {
      AddOnceFacts(acc, sets[0][i]);
      acc := AddOnce(acc, sets[0][i]);
    }
    assert sets[0][..|sets[0]|] == sets[0];
    for n := 1 to |sets|
      invariant Distinct(acc) && forall x :: x in acc <==> forall i | 0 <= i < n :: x in sets[i]
    {
      acc := Kept(acc, sets[n]);
    }
  }

  function Kept(acc: seq<string>, s: seq<string>): (kept: seq<string>)
    ensures forall x :: x in kept <==> x in acc && x in s
    ensures Distinct(acc) ==> Distinct(kept)
  {
    FilterDistinct((x: string) => x in s, acc);
    Filter((x: string) => x in s, acc)
  }

  // ---- Only managed ----

  function VersionsOf(origins: seq<Origin>): (vs: seq<string>)
    ensures Distinct(vs) && forall v :: v in vs <==> exists i :: 0 <= i < |origins| && origins[i].version == v
  {
    if origins == [] then []
    else
      var rest, v := VersionsOf(origins[..|origins| - 1]), origins[|origins| - 1].version;
      if v in rest then rest else (DistinctConcat(rest, [v]); rest + [v])
  }

  /** A managed coordinate some module reaches becomes the transitive it is, at the versions reached. */
  function Promoted(cmp: (string, string) -> int, r: DepRec): DepRec
    requires r.origins != []
  {
    var vs, first := SortBy(cmp, VersionsOf(r.origins)), r.origins[0];
    assert r.origins[0].version in VersionsOf(r.origins);
    assert |vs| == |multiset(vs)| == |multiset(VersionsOf(r.origins))|;
    var v := vs[|vs| - 1];
    r.(managedOnly := false, version := if IsConcrete(v) then v else r.version, scope := Transitive, isDev := first.scope == Some(Test),
       managedIn := r.books.manifests, via := first.via, depth := first.depth,
       books := r.books.(versions := vs, manifests := [], versionPaths := map[], versionScopes := []))
  }

  predicate Reached(before: ScanMap, k: string) {
    k in before && before[k].managedOnly && before[k].origins != []
  }

  predicate Unreached(before: ScanMap, k: string) {
    k in before && before[k].managedOnly && before[k].origins == []
  }

  /** What nothing reaches is dropped, what some module reaches is promoted and counted. */
  method SettleManagedOnly(cmp: (string, string) -> int, before: ScanMap)
    returns (out: ScanMap, dropped: set<string>, promoted: nat, ghost ups: set<string>)
    ensures forall k :: k in dropped <==> Unreached(before, k)
    ensures forall k :: k in out <==> k in before && k !in dropped
    ensures forall k | k in out :: !out[k].managedOnly && out[k] == if Reached(before, k) then Promoted(cmp, before[k]) else before[k]
    ensures (forall k :: k in ups <==> Reached(before, k)) && promoted == |ups|
  {
    hide Promoted;
    out, dropped, promoted, ups := before, {}, 0, {};
    var todo := before.Keys;
    while todo != {}
      invariant todo <= before.Keys
      invariant forall k :: k in dropped <==> k !in todo && Unreached(before, k)
      invariant forall k :: k in ups <==> k !in todo && Reached(before, k)
      invariant promoted == |ups|
      invariant forall k :: k in out <==> k in before && k !in dropped
      invariant forall k | k in out :: out[k] == if k !in todo && Reached(before, k) then Promoted(cmp, before[k]) else before[k]
    {
      var key :| key in todo;
      todo := todo - {key};
      var r := before[key];
      if !r.managedOnly { continue; }
      if r.origins != [] {
        out, promoted, ups := out[key := Promoted(cmp, r)], promoted + 1, ups + {key};
      } else {
        out, dropped := map k | k in out && k != key :: out[k], dropped + {key};
      }
    }
    forall k | k in out ensures !out[k].managedOnly { PromotedIsSettled(cmp, before[k]); }
  }

  lemma PromotedIsSettled(cmp: (string, string) -> int, r: DepRec)
    ensures r.origins != [] ==> !Promoted(cmp, r).managedOnly
  {
  }
}
