/**
 * lib/osv-db.js:53-78, 142-176: matching through the local OSV index is the same as scanning
 * every advisory.
 *
 * That the index loses nothing holds whatever affects a version, so `affects(version, entry)` is a
 * parameter there; VulnAffects is the program's own. `lower` is case folding. Unzipping and JSON
 * parsing come before this model.
 */
module OsvIndex {
  import opened Basics
  import OsvRange

  /** One package of an advisory: listed versions, and ranges of events. */
  datatype Entry = Entry(ecosystem: string, name: string, versions: seq<string>, ranges: seq<OsvRange.Range<string>>)

  datatype Advisory = Advisory(id: string, withdrawn: bool, affected: seq<Entry>)

  /** An advisory as the index stores it: one package's slice of `affected`. */
  datatype Record = Record(id: string, affected: seq<Entry>)

  type Index = map<string, seq<Record>>

  datatype Dep = Dep(isMaven: bool, unmanaged: bool, coord: string, version: string, versions: seq<string>)

  /** One finding: a coordinate, the version it was matched on, the advisory. */
  datatype Triple = Triple(coord: string, version: string, id: string)

  type Affects = (string, Entry) -> bool

  type Fold = string -> string

  // ---- Grouping one advisory by package name ----

  predicate Indexed(eco: string, e: Entry) {
    e.ecosystem == eco && e.name != ""
  }

  function Names(eco: string, es: seq<Entry>): seq<string> {
    if es == [] then []
    else
      var before := Names(eco, es[..|es| - 1]);
      var e := es[|es| - 1];
      if Indexed(eco, e) && e.name !in before then before + [e.name] else before
  }

  function Slice(eco: string, name: string, es: seq<Entry>): seq<Entry> {
    if es == [] then []
    else
      var e := es[|es| - 1];
      Slice(eco, name, es[..|es| - 1]) + if Indexed(eco, e) && e.name == name then [e] else []
  }

  lemma {:induction false} SliceHas(eco: string, name: string, es: seq<Entry>, e: Entry)
    ensures e in Slice(eco, name, es) <==> e in es && Indexed(eco, e) && e.name == name
  {
    if es != [] {
      SliceHas(eco, name, es[..|es| - 1], e);
      assert es == es[..|es| - 1] + [es[|es| - 1]];
    }
  }

  lemma {:induction false} NamesHas(eco: string, es: seq<Entry>, name: string)
    ensures name in Names(eco, es) <==> exists e :: e in es && Indexed(eco, e) && e.name == name
  {
    if es != [] {
      var rest, last := es[..|es| - 1], es[|es| - 1];
      NamesHas(eco, rest, name);
      forall e ensures e in es <==> e in rest || e == last {
        assert es == rest + [last];
      }
    }
  }

  predicate Has(index: Index, key: string, r: Record) {
    key in index && r in index[key]
  }

  ghost predicate FiledAs(lower: Fold, eco: string, a: Advisory, name: string, key: string, r: Record) {
    lower(name) == key && r == Record(a.id, Slice(eco, name, a.affected))
  }

  ghost predicate FiledAmong(lower: Fold, eco: string, a: Advisory, names: seq<string>, key: string, r: Record) {
    exists name :: name in names && FiledAs(lower, eco, a, name, key, r)
  }

  /** The records a live advisory puts under `key`: one per package name it lists. */
  ghost predicate Filed(lower: Fold, eco: string, a: Advisory, key: string, r: Record) {
    !a.withdrawn && FiledAmong(lower, eco, a, Names(eco, a.affected), key, r)
  }

  ghost predicate FiledByAny(lower: Fold, eco: string, advisories: seq<Advisory>, key: string, r: Record) {
    exists a :: a in advisories && Filed(lower, eco, a, key, r)
  }

  ghost predicate IndexOf(lower: Fold, eco: string, advisories: seq<Advisory>, index: Index) {
    forall key, r :: Has(index, key, r) <==> FiledByAny(lower, eco, advisories, key, r)
  }

  method GroupByName(eco: string, es: seq<Entry>) returns (names: seq<string>, byPkg: map<string, seq<Entry>>)
    ensures names == Names(eco, es)
    ensures forall n :: n in byPkg <==> n in names
    ensures forall n | n in byPkg :: byPkg[n] == Slice(eco, n, es)
  {
    names, byPkg := [], map[];
    for i := 0 to |es|
      invariant names == Names(eco, es[..i])
      invariant forall n :: n in byPkg <==> n in names
      invariant forall n :: (if n in byPkg then byPkg[n] else []) == Slice(eco, n, es[..i])
    {
      assert es[..i + 1][..i] == es[..i];
      var e := es[i];
      forall n ensures Slice(eco, n, es[..i]) + [] == Slice(eco, n, es[..i]) { }
      if e.ecosystem != eco || e.name == "" { continue; }
      if e.name !in byPkg {
        names := names + [e.name];
        byPkg := byPkg[e.name := []];
      }
      byPkg := byPkg[e.name := byPkg[e.name] + [e]];
    }
    assert es[..|es|] == es;
  }

  /** `index` with `r` appended under `key`. */
  function Push(index: Index, key: string, r: Record): Index {
    index[key := (if key in index then index[key] else []) + [r]]
  }

  function At(index: Index, key: string): seq<Record> {
    if key in index then index[key] else []
  }

  /** One record for each of the package names that folds to `key`. */
  function RecordsOf(lower: Fold, eco: string, a: Advisory, names: seq<string>, key: string): seq<Record> {
    if names == [] then []
    else
      var name := names[|names| - 1];
      RecordsOf(lower, eco, a, names[..|names| - 1], key) +
      if lower(name) == key then [Record(a.id, Slice(eco, name, a.affected))] else []
  }

  /** The records of all live advisories under `key`, in order. */
  function AllRecords(lower: Fold, eco: string, advisories: seq<Advisory>, key: string): seq<Record> {
    if advisories == [] then []
    else
      var a := advisories[|advisories| - 1];
      AllRecords(lower, eco, advisories[..|advisories| - 1], key) +
      if a.withdrawn then [] else RecordsOf(lower, eco, a, Names(eco, a.affected), key)
  }

  /** The index is these lists, and has no empty one. */
  ghost predicate ListsRecords(lower: Fold, eco: string, advisories: seq<Advisory>, index: Index) {
    forall key :: At(index, key) == AllRecords(lower, eco, advisories, key) && (key in index ==> index[key] != [])
  }

  /** Each package name of an advisory is one of its names, once. */
  lemma {:induction false} NamesOnce(eco: string, es: seq<Entry>)
    ensures Distinct(Names(eco, es))
  {
    if es != [] {
      var before, e := Names(eco, es[..|es| - 1]), es[|es| - 1];
      NamesOnce(eco, es[..|es| - 1]);
      if Indexed(eco, e) && e.name !in before { DistinctConcat(before, [e.name]); }
    }
  }

  /** `names` of the advisory have been filed. */
  ghost predicate Adds(lower: Fold, eco: string, a: Advisory, names: seq<string>, before: Index, index: Index) {
    && (forall key :: At(index, key) == At(before, key) + RecordsOf(lower, eco, a, names, key))
    && (forall key | key in index :: index[key] != [])
  }

  lemma AddsNone(lower: Fold, eco: string, a: Advisory, before: Index)
    requires forall key | key in before :: before[key] != []
    ensures Adds(lower, eco, a, [], before, before)
  {
    assert forall key :: At(before, key) + [] == At(before, key);
  }

  lemma AddsOne(lower: Fold, eco: string, a: Advisory, names: seq<string>, before: Index, index: Index, name: string)
    requires Adds(lower, eco, a, names, before, index)
    ensures Adds(lower, eco, a, names + [name], before, Push(index, lower(name), Record(a.id, Slice(eco, name, a.affected))))
  {
    hide Slice, RecordsOf;
    var record := Record(a.id, Slice(eco, name, a.affected));
    var now := Push(index, lower(name), record);
    PushAt(index, lower(name), record);
    forall key ensures At(now, key) == At(before, key) + RecordsOf(lower, eco, a, names + [name], key) {
      RecordsOfSnoc(lower, eco, a, names, name, key);
      var one := if lower(name) == key then [record] else [];
      assert At(index, key) + one == At(before, key) + (RecordsOf(lower, eco, a, names, key) + one);
    }
  }

  method FileAdvisory(lower: Fold, eco: string, a: Advisory, before: Index) returns (index: Index)
    requires !a.withdrawn && forall key | key in before :: before[key] != []
    ensures Adds(lower, eco, a, Names(eco, a.affected), before, index)
  {
    hide *;
    index := before;
    var names, byPkg := GroupByName(eco, a.affected);
    AddsNone(lower, eco, a, before);
    for j := 0 to |names|
      invariant Adds(lower, eco, a, names[..j], before, index)
    {
      var name := names[j];
      AddsOne(lower, eco, a, names[..j], before, index, name);
      assert names[..j + 1] == names[..j] + [name];
      index := Push(index, lower(name), Record(a.id, byPkg[name]));
    }
    assert names[..|names|] == names;
  }

  lemma PushAt(index: Index, key: string, r: Record)
    ensures forall k :: At(Push(index, key, r), k) == At(index, k) + if k == key then [r] else []
    ensures (forall k | k in index :: index[k] != []) ==> forall k | k in Push(index, key, r) :: Push(index, key, r)[k] != []
  {
  }

  lemma RecordsOfSnoc(lower: Fold, eco: string, a: Advisory, names: seq<string>, name: string, key: string)
    ensures RecordsOf(lower, eco, a, names + [name], key) ==
            RecordsOf(lower, eco, a, names, key) + if lower(name) == key then [Record(a.id, Slice(eco, name, a.affected))] else []
  {
    hide Slice;
    assert (names + [name])[..|names|] == names;
  }

  lemma ListsNone(lower: Fold, eco: string)
    ensures ListsRecords(lower, eco, [], map[])
  {
  }

  lemma ListsMore(lower: Fold, eco: string, before: seq<Advisory>, a: Advisory, was: Index, index: Index)
    requires ListsRecords(lower, eco, before, was)
    requires if a.withdrawn then index == was else Adds(lower, eco, a, Names(eco, a.affected), was, index)
    ensures ListsRecords(lower, eco, before + [a], index)
  {
    hide RecordsOf, Names;
    assert (before + [a])[..|before|] == before;
    forall key ensures At(index, key) == AllRecords(lower, eco, before + [a], key) {
      assert AllRecords(lower, eco, before, key) + [] == AllRecords(lower, eco, before, key);
    }
  }

  lemma NoneEmpty(lower: Fold, eco: string, advisories: seq<Advisory>, index: Index)
    requires ListsRecords(lower, eco, advisories, index)
    ensures forall key | key in index :: index[key] != []
  {
    forall key | key in index ensures index[key] != [] { assert At(index, key) == index[key]; }
  }

  /** The index lists, under each folded name, the records of the live advisories in order. */
  method BuildIndex(lower: Fold, eco: string, advisories: seq<Advisory>) returns (index: Index)
    ensures ListsRecords(lower, eco, advisories, index)
  {
    hide *;
    index := map[];
    ListsNone(lower, eco);
    assert advisories[..0] == [];
    for i := 0 to |advisories|
      invariant ListsRecords(lower, eco, advisories[..i], index)
    {
      var a := advisories[i];
      ghost var was := index;
      if !a.withdrawn {
        NoneEmpty(lower, eco, advisories[..i], index);
        index := FileAdvisory(lower, eco, a, index);
      }
      ListsMore(lower, eco, advisories[..i], a, was, index);
      assert advisories[..i + 1] == advisories[..i] + [a];
    }
    assert advisories[..|advisories|] == advisories;
  }

  lemma {:induction false} RecordsOfHas(lower: Fold, eco: string, a: Advisory, names: seq<string>, key: string, r: Record)
    ensures r in RecordsOf(lower, eco, a, names, key) <==> FiledAmong(lower, eco, a, names, key, r)
  {
    hide Slice;
    if names != [] {
      var rest, last := names[..|names| - 1], names[|names| - 1];
      assert names == rest + [last];
      RecordsOfHas(lower, eco, a, rest, key, r);
      RecordsOfSnoc(lower, eco, a, rest, last, key);
      hide RecordsOf;
      assert forall n :: n in names <==> n in rest || n == last;
      assert FiledAmong(lower, eco, a, names, key, r) <==> FiledAmong(lower, eco, a, rest, key, r) || FiledAs(lower, eco, a, last, key, r);
    }
  }

  lemma {:induction false} AllRecordsHas(lower: Fold, eco: string, advisories: seq<Advisory>, key: string, r: Record)
    ensures r in AllRecords(lower, eco, advisories, key) <==> FiledByAny(lower, eco, advisories, key, r)
  {
    hide RecordsOf, Filed, Names;
    if advisories != [] {
      var rest, last := advisories[..|advisories| - 1], advisories[|advisories| - 1];
      assert advisories == rest + [last];
      AllRecordsHas(lower, eco, rest, key, r);
      LastFiles(lower, eco, last, key, r);
      assert forall a :: a in advisories <==> a in rest || a == last;
      assert FiledByAny(lower, eco, advisories, key, r) <==> FiledByAny(lower, eco, rest, key, r) || Filed(lower, eco, last, key, r);
    }
  }

  lemma LastFiles(lower: Fold, eco: string, a: Advisory, key: string, r: Record)
    ensures Filed(lower, eco, a, key, r) <==> !a.withdrawn && r in RecordsOf(lower, eco, a, Names(eco, a.affected), key)
  {
    hide RecordsOf, Names, FiledAmong;
    RecordsOfHas(lower, eco, a, Names(eco, a.affected), key, r);
  }

  /** So it holds a record exactly when some live advisory files it. */
  lemma ListsAreIndex(lower: Fold, eco: string, advisories: seq<Advisory>, index: Index)
    requires ListsRecords(lower, eco, advisories, index)
    ensures IndexOf(lower, eco, advisories, index)
  {
    hide AllRecords, FiledByAny;
    forall key, r ensures Has(index, key, r) <==> FiledByAny(lower, eco, advisories, key, r) {
      AllRecordsHas(lower, eco, advisories, key, r);
      assert At(index, key) == AllRecords(lower, eco, advisories, key);
    }
  }

  // ---- Matching ----

  predicate Concrete(v: string) {
    v != "" && !exists i | 0 <= i < |v| - 1 :: v[i] == '$' && v[i + 1] == '{'
  }

  function Versions(d: Dep): seq<string> {
    if d.versions != [] then d.versions else [d.version]
  }

  predicate RecordAffects(affects: Affects, v: string, r: Record) {
    exists e | e in r.affected :: affects(v, e)
  }

  predicate Eligible(d: Dep) {
    d.isMaven && !d.unmanaged
  }

  ghost predicate Hit(lower: Fold, affects: Affects, index: Index, d: Dep, t: Triple) {
    && Eligible(d) && t.coord == d.coord && t.version in Versions(d) && Concrete(t.version)
    && exists r :: Has(index, lower(d.coord), r) && r.id == t.id && RecordAffects(affects, t.version, r)
  }

  ghost predicate HitAmong(affects: Affects, coord: string, v: string, recs: seq<Record>, t: Triple) {
    t.coord == coord && t.version == v && exists r :: r in recs && r.id == t.id && RecordAffects(affects, v, r)
  }

  method MatchVersion(affects: Affects, coord: string, v: string, recs: seq<Record>, out: seq<Triple>) returns (more: seq<Triple>)
    requires Distinct(out)
    ensures Distinct(more)
    ensures forall t :: t in more <==> t in out || HitAmong(affects, coord, v, recs, t)
  {
    more := out;
    for i := 0 to |recs|
      invariant Distinct(more)
      invariant forall t :: t in more <==> t in out || HitAmong(affects, coord, v, recs[..i], t)
    {
      var rec := recs[i];
      ghost var was := more;
      var key := Triple(coord, v, rec.id);
      if RecordAffects(affects, v, rec) && key !in more { more := more + [key]; }
      forall r ensures r in recs[..i + 1] <==> r in recs[..i] || r == rec {
        assert recs[..i + 1] == recs[..i] + [rec];
      }
      forall t ensures t in more <==> t in was || (t == key && RecordAffects(affects, v, rec)) { }
    }
    assert recs[..|recs|] == recs;
  }

  method MatchDeps(lower: Fold, affects: Affects, deps: seq<Dep>, index: Index) returns (out: seq<Triple>)
    ensures Distinct(out)
    ensures forall t :: t in out <==> exists d :: d in deps && Hit(lower, affects, index, d, t)
  {
    out := [];
    for i := 0 to |deps|
      invariant Distinct(out)
      invariant forall t :: t in out <==> exists d :: d in deps[..i] && Hit(lower, affects, index, d, t)
    {
      var dep := deps[i];
      ghost var was := out;
      if Eligible(dep) && lower(dep.coord) in index {
        var recs, versions := index[lower(dep.coord)], Versions(dep);
        for j := 0 to |versions|
          invariant Distinct(out)
          invariant forall t :: t in out <==> t in was || (t.version in versions[..j] && Hit(lower, affects, index, dep, t))
        {
          ghost var had := out;
          var ver := versions[j];
          if Concrete(ver) { out := MatchVersion(affects, dep.coord, ver, recs, out); }
          forall v ensures v in versions[..j + 1] <==> v in versions[..j] || v == ver {
            assert versions[..j + 1] == versions[..j] + [ver];
          }
        }
        assert versions[..|versions|] == versions;
      }
      forall d ensures d in deps[..i + 1] <==> d in deps[..i] || d == dep {
        assert deps[..i + 1] == deps[..i] + [dep];
      }
    }
    assert deps[..|deps|] == deps;
  }

  // ---- The index loses and adds nothing ----

  /** A live advisory names this coordinate (ignoring case) in an entry that affects the version. */
  ghost predicate Advised(lower: Fold, affects: Affects, eco: string, advisories: seq<Advisory>, d: Dep, t: Triple) {
    && Eligible(d) && t.coord == d.coord && t.version in Versions(d) && Concrete(t.version)
    && exists a, e :: a in advisories && !a.withdrawn && a.id == t.id && e in a.affected
                      && Indexed(eco, e) && lower(e.name) == lower(d.coord) && affects(t.version, e)
  }

  lemma HitIffAdvised(lower: Fold, affects: Affects, eco: string, advisories: seq<Advisory>, index: Index, d: Dep, t: Triple)
    requires IndexOf(lower, eco, advisories, index)
    ensures Hit(lower, affects, index, d, t) <==> Advised(lower, affects, eco, advisories, d, t)
  {
    var key := lower(d.coord);
    if Hit(lower, affects, index, d, t) {
      var r :| Has(index, key, r) && r.id == t.id && RecordAffects(affects, t.version, r);
      var e :| e in r.affected && affects(t.version, e);
      assert FiledByAny(lower, eco, advisories, key, r);
      var a :| a in advisories && Filed(lower, eco, a, key, r);
      var name :| name in Names(eco, a.affected) && FiledAs(lower, eco, a, name, key, r);
      SliceHas(eco, name, a.affected, e);
    }
    if Advised(lower, affects, eco, advisories, d, t) {
      var a, e :| a in advisories && !a.withdrawn && a.id == t.id && e in a.affected
                  && Indexed(eco, e) && lower(e.name) == key && affects(t.version, e);
      NamesHas(eco, a.affected, e.name);
      SliceHas(eco, e.name, a.affected, e);
      var r := Record(a.id, Slice(eco, e.name, a.affected));
      assert FiledAs(lower, eco, a, e.name, key, r);
      assert Filed(lower, eco, a, key, r);
      assert Has(index, key, r);
      assert RecordAffects(affects, t.version, r);
    }
  }

  /** Building the index and matching through it finds exactly what scanning would, once each. */
  method MatchThroughIndex(lower: Fold, affects: Affects, eco: string, advisories: seq<Advisory>, deps: seq<Dep>)
    returns (out: seq<Triple>)
    ensures Distinct(out)
    ensures forall t :: t in out <==> exists d :: d in deps && Advised(lower, affects, eco, advisories, d, t)
  {
    var index := BuildIndex(lower, eco, advisories);
    ListsAreIndex(lower, eco, advisories, index);
    hide ListsRecords;
    out := MatchDeps(lower, affects, deps, index);
    forall d, t ensures Hit(lower, affects, index, d, t) <==> Advised(lower, affects, eco, advisories, d, t) {
      HitIffAdvised(lower, affects, eco, advisories, index, d, t);
    }
  }

  // ---- What affects a version ----

  type Scale = OsvRange.Scale<string>

  predicate EntryAffects(sc: Scale, v: string, e: Entry) {
    v in e.versions || exists i | 0 <= i < |e.ranges| :: OsvRange.RangeSays(sc, v, e.ranges[i])
  }

  function VulnAffects(sc: Scale): Affects {
    (v: string, e: Entry) => EntryAffects(sc, v, e)
  }

  /** lib/osv-db.js:142-148: a listed version, or a range that says so, in any affected entry. */
  method VulnAffectsVersion(sc: Scale, v: string, rec: Record) returns (affected: bool)
    ensures affected == RecordAffects(VulnAffects(sc), v, rec)
  {
    hide OsvRange.RangeSays;
    for i := 0 to |rec.affected|
      invariant forall k | 0 <= k < i :: !EntryAffects(sc, v, rec.affected[k])
    {
      var e := rec.affected[i];
      assert e in rec.affected;
      if v in e.versions { return true; }
      for j := 0 to |e.ranges|
        invariant forall k | 0 <= k < j :: !OsvRange.RangeSays(sc, v, e.ranges[k])
      {
        var hit := OsvRange.RangeAffects(sc, v, e.ranges[j]);
        if hit { return true; }
      }
    }
    return false;
  }

  /** The order ranks the versions of all the entry's events. */
  ghost predicate RankedEntry(sc: Scale, ok: string -> bool, e: Entry) {
    forall i | 0 <= i < |e.ranges| :: OsvRange.Ranked(sc, ok, OsvRange.EventsOf(e.ranges[i].events))
  }

  /** Within its limits, the greatest event of the range that fires on the version is an introduction. */
  ghost predicate Introduces(sc: Scale, v: string, r: OsvRange.Range<string>) {
    !r.isGit && OsvRange.WithinLimits(sc, v, OsvRange.LimitsOf(r.events)) && OsvRange.SaysAffected(sc, v, OsvRange.EventsOf(r.events))
  }

  lemma EntryAffectsByEvents(sc: Scale, ok: string -> bool, v: string, e: Entry)
    requires RankedEntry(sc, ok, e)
    ensures EntryAffects(sc, v, e) <==> v in e.versions || exists i :: 0 <= i < |e.ranges| && Introduces(sc, v, e.ranges[i])
  {
    forall i | 0 <= i < |e.ranges| ensures OsvRange.RangeSays(sc, v, e.ranges[i]) <==> Introduces(sc, v, e.ranges[i]) {
      OsvRange.RangeSaysByGreatest(sc, ok, v, e.ranges[i]);
    }
    hide OsvRange.RangeSays, Introduces, RankedEntry;
  }

  /** A live advisory lists the version for the coordinate, or has a range for it that introduces the version. */
  ghost predicate AdvisedByEvents(lower: Fold, sc: Scale, eco: string, advisories: seq<Advisory>, d: Dep, t: Triple) {
    && Eligible(d) && t.coord == d.coord && t.version in Versions(d) && Concrete(t.version)
    && exists a, e :: a in advisories && !a.withdrawn && a.id == t.id && e in a.affected
                      && Indexed(eco, e) && lower(e.name) == lower(d.coord)
                      && (t.version in e.versions || exists i :: 0 <= i < |e.ranges| && Introduces(sc, t.version, e.ranges[i]))
  }

  lemma AdvisedIsByEvents(lower: Fold, sc: Scale, ok: string -> bool, eco: string, advisories: seq<Advisory>, d: Dep, t: Triple)
    requires forall a, e | a in advisories && e in a.affected :: RankedEntry(sc, ok, e)
    ensures Advised(lower, VulnAffects(sc), eco, advisories, d, t) <==> AdvisedByEvents(lower, sc, eco, advisories, d, t)
  {
    forall a, e | a in advisories && e in a.affected
      ensures VulnAffects(sc)(t.version, e) <==>
              t.version in e.versions || exists i :: 0 <= i < |e.ranges| && Introduces(sc, t.version, e.ranges[i])
    {
      EntryAffectsByEvents(sc, ok, t.version, e);
    }
    hide EntryAffects, Introduces, RankedEntry;
  }

  /**
   * The program's own matching: each finding once, and exactly those of live advisories with an
   * entry of the ecosystem and name that lists the version or whose events introduce it.
   */
  method MatchOsvDbDeps(lower: Fold, sc: Scale, ghost ok: string -> bool, eco: string, advisories: seq<Advisory>, deps: seq<Dep>)
    returns (out: seq<Triple>)
    ensures Distinct(out)
    ensures forall t :: t in out <==> exists d :: d in deps && Advised(lower, VulnAffects(sc), eco, advisories, d, t)
    ensures (forall a, e | a in advisories && e in a.affected :: RankedEntry(sc, ok, e)) ==>
              forall t :: t in out <==> exists d :: d in deps && AdvisedByEvents(lower, sc, eco, advisories, d, t)
  {
    hide Advised, AdvisedByEvents, RankedEntry;
    out := MatchThroughIndex(lower, VulnAffects(sc), eco, advisories, deps);
    if forall a, e | a in advisories && e in a.affected :: RankedEntry(sc, ok, e) {
      forall d, t ensures Advised(lower, VulnAffects(sc), eco, advisories, d, t) <==> AdvisedByEvents(lower, sc, eco, advisories, d, t) {
        AdvisedIsByEvents(lower, sc, ok, eco, advisories, d, t);
      }
    }
  }
}
