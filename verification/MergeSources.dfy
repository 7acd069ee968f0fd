/**
 * lib/merge-sources.js:20-118: findings of every source merged into one list.
 *
 * Two findings at one coordinate and version are the same advisory when they share any id. A
 * source string such as "osv+packagist" is its set of tokens, a score is in tenths, and "" is a
 * missing id. The sort of the result by severity only orders it and is not part of this model.
 */
module MergeSources {
  import opened Basics

  datatype Cve = Cve(id: string, aliases: seq<string>, ghsa: string, score: Option<nat>)

  datatype Finding = Finding(coord: string, version: string, cve: Cve, source: set<string>)

  /** The text key `coord:version|id`. */
  datatype Key = Key(coord: string, version: string, id: string)

  function KeyOf(m: Finding, id: string): Key {
    Key(m.coord, m.version, id)
  }

  function Primary(m: Finding): Key {
    KeyOf(m, m.cve.id)
  }

  function NonEmpty(ids: seq<string>): seq<string> {
    if ids == [] then []
    else if ids[0] == "" then NonEmpty(ids[1..])
    else [ids[0]] + NonEmpty(ids[1..])
  }

  lemma {:induction false} NonEmptyHas(ids: seq<string>, id: string)
    ensures id in NonEmpty(ids) <==> id in ids && id != ""
  {
    if ids != [] { NonEmptyHas(ids[1..], id); }
  }

  /** The ids by which a finding can be recognised, the primary one first. */
  function IdsOf(m: Finding): seq<string> {
    NonEmpty([m.cve.id] + m.cve.aliases + [m.cve.ghsa])
  }

  predicate Answers(m: Finding, id: string) {
    id != "" && (id == m.cve.id || id in m.cve.aliases || id == m.cve.ghsa)
  }

  lemma IdsAreAnswers(m: Finding)
    ensures forall id :: id in IdsOf(m) <==> Answers(m, id)
  {
    forall id ensures id in IdsOf(m) <==> Answers(m, id) {
      NonEmptyHas([m.cve.id] + m.cve.aliases + [m.cve.ghsa], id);
    }
  }

  function UpperChar(c: char): char {
    if 'a' <= c <= 'z' then c - 'a' + 'A' else c
  }

  predicate IsCve(id: string) {
    |id| >= 4 && UpperChar(id[0]) == 'C' && UpperChar(id[1]) == 'V' && UpperChar(id[2]) == 'E' && id[3] == '-'
  }

  function ScoreOr0(s: Option<nat>): nat {
    if s.Some? then s.value else 0
  }

  /** A CVE id is "CVE-" in any case, and whatever follows. */
  lemma CveTexts(id: string)
    ensures IsCve(id) <==> exists c, v, e, rest :: id == [c, v, e, '-'] + rest && c in "Cc" && v in "Vv" && e in "Ee"
  {
    if IsCve(id) { assert id == [id[0], id[1], id[2], '-'] + id[4..]; }
    forall c: char ensures UpperChar(c) == 'C' <==> c in "Cc" ensures UpperChar(c) == 'V' <==> c in "Vv" ensures UpperChar(c) == 'E' <==> c in "Ee" {
      assert "Cc"[0] == 'C' && "Cc"[1] == 'c' && "Vv"[0] == 'V' && "Vv"[1] == 'v' && "Ee"[0] == 'E' && "Ee"[1] == 'e';
    }
  }

  /** Each once, in order, neither empty nor the one dropped. */
  function Without(ids: seq<string>, drop: string): seq<string> {
    if ids == [] then []
    else
      var rest, id := Without(ids[..|ids| - 1], drop), ids[|ids| - 1];
      if id == drop || id == "" || id in rest then rest else rest + [id]
  }

  lemma {:induction false} WithoutFacts(ids: seq<string>, drop: string)
    ensures Distinct(Without(ids, drop)) && forall id :: id in Without(ids, drop) <==> id in ids && id != "" && id != drop
  {
    if ids != [] {
      var most, last := ids[..|ids| - 1], ids[|ids| - 1];
      WithoutFacts(most, drop);
      assert ids == most + [last];
      if last !in Without(most, drop) { DistinctConcat(Without(most, drop), [last]); }
    }
  }

  /** Ids are listed as they first occur. */
  lemma {:induction false} WithoutGrows(ids: seq<string>, more: seq<string>, drop: string)
    ensures Without(ids, drop) <= Without(ids + more, drop)
  {
    if more == [] {
      assert ids + more == ids;
    } else {
      var most := more[..|more| - 1];
      WithoutGrows(ids, most, drop);
      assert (ids + more)[..|ids + more| - 1] == ids + most;
    }
  }

  function MergedScore(p: Option<nat>, m: Option<nat>): Option<nat> {
    var high := Max(ScoreOr0(p), ScoreOr0(m));
    if high != 0 then Some(high) else m
  }

  /** The record keeps its id, unless it has no CVE id and the incoming one does. */
  function Merge(prev: Finding, m: Finding): Finding {
    var id := if !IsCve(prev.cve.id) && IsCve(m.cve.id) then m.cve.id else prev.cve.id;
    prev.(
      source := prev.source + m.source,
      cve := Cve(id, Without(prev.cve.aliases + m.cve.aliases + [prev.cve.id, m.cve.id], id),
                 if prev.cve.ghsa != "" then prev.cve.ghsa else m.cve.ghsa,
                 MergedScore(prev.cve.score, m.cve.score)))
  }

  lemma MergeAnswers(prev: Finding, m: Finding)
    ensures forall id :: Answers(Merge(prev, m), id) ==> Answers(prev, id) || Answers(m, id)
    ensures forall id :: Answers(prev, id) ==> Answers(Merge(prev, m), id)
    ensures forall id :: Listed(Merge(prev, m), id) <==> Listed(prev, id) || Listed(m, id)
  {
    var t := Merge(prev, m);
    WithoutFacts(prev.cve.aliases + m.cve.aliases + [prev.cve.id, m.cve.id], t.cve.id);
    assert forall id :: id in t.cve.aliases <==>
             id != "" && id != t.cve.id && (id in prev.cve.aliases || id in m.cve.aliases || id == prev.cve.id || id == m.cve.id);
  }

  // ---- What a record owes to the findings folded into it ----

  /** Primary id or alias; a second GHSA is the one id a merge may drop. */
  predicate Listed(m: Finding, id: string) {
    id != "" && (id == m.cve.id || id in m.cve.aliases)
  }

  ghost predicate FoldOf(rec: Finding, group: seq<Finding>) {
    && group != []
    && (forall m | m in group :: m.coord == rec.coord && m.version == rec.version)
    && (forall id :: Listed(rec, id) <==> exists m :: m in group && Listed(m, id))
    && (forall id | Answers(rec, id) :: exists m :: m in group && Answers(m, id))
    && (forall t :: t in rec.source <==> exists m :: m in group && t in m.source)
    && HighestScore(rec.cve.score, group)
    && (IsCve(rec.cve.id) <==> exists m :: m in group && IsCve(m.cve.id))
    && (exists m :: m in group && m.cve.id == rec.cve.id)
    && IdFrom(rec, group) && GhsaFrom(rec, group)
    && (|group| > 1 ==> Distinct(rec.cve.aliases) && rec.cve.id !in rec.cve.aliases)
  }

  /** The highest score any finding states; where none states one above zero, whatever the last says. */
  ghost predicate HighestScore(score: Option<nat>, group: seq<Finding>)
    requires group != []
  {
    && (exists m :: m in group && m.cve.score == score)
    && (forall m | m in group && m.cve.score.Some? && m.cve.score.value > 0 :: score.Some? && m.cve.score.value <= score.value)
    && (score == None || score == Some(0) ==> score == group[|group| - 1].cve.score)
  }

  lemma HighestScoreMore(score: Option<nat>, group: seq<Finding>, m: Finding)
    requires group != [] && HighestScore(score, group)
    ensures HighestScore(MergedScore(score, m.cve.score), group + [m])
  {
    var g := group + [m];
    forall x ensures x in g <==> x in group || x == m { }
    var top :| top in group && top.cve.score == score;
    assert top in g && m in g;
    if MergedScore(score, m.cve.score) == score { assert top.cve.score == score; } else { assert m.cve.score == MergedScore(score, m.cve.score); }
  }

  /** The id is that of the first finding with a CVE id, else of the first finding. */
  ghost predicate IdFrom(rec: Finding, group: seq<Finding>) {
    exists i :: 0 <= i < |group| && rec.cve.id == group[i].cve.id && (forall j | 0 <= j < i :: !IsCve(group[j].cve.id)) && (IsCve(rec.cve.id) || i == 0)
  }

  /** The GHSA is that of the first finding that states one. */
  ghost predicate GhsaFrom(rec: Finding, group: seq<Finding>) {
    if rec.cve.ghsa == "" then forall i | 0 <= i < |group| :: group[i].cve.ghsa == ""
    else exists i :: 0 <= i < |group| && rec.cve.ghsa == group[i].cve.ghsa && forall j | 0 <= j < i :: group[j].cve.ghsa == ""
  }

  lemma IdFromMore(rec: Finding, group: seq<Finding>, m: Finding)
    requires IdFrom(rec, group) && (!IsCve(rec.cve.id) ==> forall x | x in group :: !IsCve(x.cve.id))
    ensures IdFrom(Merge(rec, m), group + [m])
  {
    hide IsCve, Without, MergedScore;
    var g := group + [m];
    assert forall i | 0 <= i < |group| :: g[i] == group[i] && group[i] in group;
    var i :| 0 <= i < |group| && rec.cve.id == group[i].cve.id && (forall j | 0 <= j < i :: !IsCve(group[j].cve.id)) && (IsCve(rec.cve.id) || i == 0);
    var k := if !IsCve(rec.cve.id) && IsCve(m.cve.id) then |group| else i;
    assert Merge(rec, m).cve.id == g[k].cve.id;
  }

  lemma GhsaFromMore(rec: Finding, group: seq<Finding>, m: Finding)
    requires GhsaFrom(rec, group)
    ensures GhsaFrom(Merge(rec, m), group + [m])
  {
    hide IsCve, Without, MergedScore;
    var g := group + [m];
    assert forall i | 0 <= i < |group| :: g[i] == group[i];
    if rec.cve.ghsa != "" {
      var i :| 0 <= i < |group| && rec.cve.ghsa == group[i].cve.ghsa && forall j | 0 <= j < i :: group[j].cve.ghsa == "";
      assert Merge(rec, m).cve.ghsa == g[i].cve.ghsa;
    } else {
      assert Merge(rec, m).cve.ghsa == g[|group|].cve.ghsa;
    }
  }

  lemma MergedAliases(rec: Finding, m: Finding)
    ensures Distinct(Merge(rec, m).cve.aliases) && Merge(rec, m).cve.id !in Merge(rec, m).cve.aliases
    ensures Merge(rec, m).cve.score == MergedScore(rec.cve.score, m.cve.score)
  {
    WithoutFacts(rec.cve.aliases + m.cve.aliases + [rec.cve.id, m.cve.id], Merge(rec, m).cve.id);
    hide Without, IsCve;
  }

  lemma FoldOfOne(m: Finding)
    ensures FoldOf(m, [m])
  {
    assert m in [m];
  }

  lemma FoldOfMerge(rec: Finding, group: seq<Finding>, m: Finding)
    requires FoldOf(rec, group) && m.coord == rec.coord && m.version == rec.version
    ensures FoldOf(Merge(rec, m), group + [m])
  {
    hide IdFrom, GhsaFrom, HighestScore, Without, MergedScore;
    var t, g := Merge(rec, m), group + [m];
    MergeAnswers(rec, m);
    IdFromMore(rec, group, m);
    GhsaFromMore(rec, group, m);
    MergedAliases(rec, m);
    HighestScoreMore(rec.cve.score, group, m);
    forall x ensures x in g <==> x in group || x == m { }
    assert m in g;
    forall id ensures Listed(t, id) <==> exists x :: x in g && Listed(x, id) {
      if Listed(rec, id) {
        var x :| x in group && Listed(x, id);
        assert x in g;
      }
    }
    forall id | Answers(t, id) ensures exists x :: x in g && Answers(x, id) {
      if Answers(rec, id) {
        var x :| x in group && Answers(x, id);
        assert x in g;
      }
    }
    forall s ensures s in t.source <==> exists x :: x in g && s in x.source {
      if s in rec.source {
        var x :| x in group && s in x.source;
        assert x in g;
      }
    }
    var named :| named in group && named.cve.id == rec.cve.id;
    assert named in g;
  }

  // ---- The merge state ----

  type Records = map<Key, Finding>

  type Aliases = map<Key, Key>

  /** The findings sent to `slot` and not lost since, in arrival order. */
  function Group(inputs: seq<Finding>, home: seq<Key>, lost: set<nat>, slot: Key): seq<Finding>
    requires |inputs| == |home|
  {
    if inputs == [] then []
    else
      var last := |inputs| - 1;
      Group(inputs[..last], home[..last], lost, slot) + if home[last] == slot && last !in lost then [inputs[last]] else []
  }

  lemma GroupSnoc(inputs: seq<Finding>, home: seq<Key>, lost: set<nat>, m: Finding, h: Key, slot: Key)
    requires |inputs| == |home| && |inputs| !in lost
    ensures Group(inputs + [m], home + [h], lost, slot) == Group(inputs, home, lost, slot) + if h == slot then [m] else []
  {
    assert (inputs + [m])[..|inputs|] == inputs && (home + [h])[..|home|] == home;
  }

  /** Everything that went to a slot, when its record is replaced. */
  ghost function SentTo(home: seq<Key>, slot: Key): set<nat> {
    set i: nat | i < |home| && home[i] == slot
  }

  ghost function LostAfter(lost: set<nat>, home: seq<Key>, slot: Key): set<nat> {
    lost + SentTo(home, slot)
  }

  predicate SameSite(k: Key, l: Key) {
    k.coord == l.coord && k.version == l.version
  }

  /** Every alias leads to a live record of its own site. */
  ghost predicate AliasesLive(byKey: Records, aliases: Aliases) {
    forall k | k in aliases :: aliases[k] in byKey && SameSite(k, aliases[k])
  }

  ghost predicate Indexed(rec: Finding, aliases: Aliases) {
    forall id | Answers(rec, id) :: KeyOf(rec, id) in aliases
  }

  /** Every live record sits at its own site and is indexed under every id it answers to. */
  ghost predicate RecordsIndexed(byKey: Records, aliases: Aliases) {
    forall slot | slot in byKey ::
      SameSite(slot, Primary(byKey[slot])) && Indexed(byKey[slot], aliases)
  }

  /** Whatever the index or a slot key names, the record there answers to it. */
  ghost predicate Truthful(byKey: Records, aliases: Aliases) {
    && (forall k | k in aliases && aliases[k] in byKey :: Answers(byKey[aliases[k]], k.id))
    && (forall slot | slot in byKey && slot.id != "" :: Answers(byKey[slot], slot.id))
  }

  /** Some live record at the finding's coordinate and version answers to one of its ids. */
  ghost predicate Known(byKey: Records, m: Finding) {
    exists slot, id :: slot in byKey && SameSite(slot, Primary(m)) && Answers(m, id) && Answers(byKey[slot], id)
  }

  /** Neither a slot nor the index knows any id of the finding. */
  ghost predicate Unseen(byKey: Records, aliases: Aliases, m: Finding) {
    forall id | Answers(m, id) :: KeyOf(m, id) !in byKey && KeyOf(m, id) !in aliases
  }

  lemma UnseenIsUnknown(byKey: Records, aliases: Aliases, m: Finding)
    requires AliasesLive(byKey, aliases) && RecordsIndexed(byKey, aliases)
    ensures Known(byKey, m) ==> !Unseen(byKey, aliases, m)
    ensures Truthful(byKey, aliases) && !Known(byKey, m) ==> Unseen(byKey, aliases, m)
  {
    if Known(byKey, m) {
      var slot, id :| slot in byKey && SameSite(slot, Primary(m)) && Answers(m, id) && Answers(byKey[slot], id);
      assert KeyOf(m, id) == KeyOf(byKey[slot], id);
    }
    if Truthful(byKey, aliases) && !Known(byKey, m) {
      forall id | Answers(m, id)
        ensures KeyOf(m, id) !in byKey && KeyOf(m, id) !in aliases
      {
        assert KeyOf(m, id).id == id;
      }
    }
  }

  /** Every finding not lost is in a live record, and a record is exactly the fold of its findings. */
  ghost predicate Conserved(byKey: Records, inputs: seq<Finding>, home: seq<Key>, lost: set<nat>)
    requires |inputs| == |home|
  {
    && (forall i | 0 <= i < |home| :: home[i] in byKey)
    && (forall i | i in lost :: i < |home|)
    && forall slot | slot in byKey :: FoldOf(byKey[slot], Group(inputs, home, lost, slot))
  }

  /** A slot all of whose findings are lost has none left. */
  lemma {:induction false} NobodyLeft(inputs: seq<Finding>, home: seq<Key>, lost: set<nat>, slot: Key)
    requires |inputs| == |home| && forall i | 0 <= i < |home| && home[i] == slot :: i in lost
    ensures Group(inputs, home, lost, slot) == []
  {
    if inputs != [] { NobodyLeft(inputs[..|inputs| - 1], home[..|home| - 1], lost, slot); }
  }

  /** Losing findings of one slot takes none from another. */
  lemma {:induction false} OthersKeep(inputs: seq<Finding>, home: seq<Key>, lost: set<nat>, more: set<nat>, slot: Key)
    requires |inputs| == |home| && forall i: nat | i < |home| && home[i] == slot :: i in lost <==> i in more
    ensures Group(inputs, home, more, slot) == Group(inputs, home, lost, slot)
  {
    if inputs != [] { OthersKeep(inputs[..|inputs| - 1], home[..|home| - 1], lost, more, slot); }
  }

  lemma ConservedMerge(byKey: Records, inputs: seq<Finding>, home: seq<Key>, lost: set<nat>, slot: Key, m: Finding)
    requires |inputs| == |home| && Conserved(byKey, inputs, home, lost)
    requires slot in byKey && m.coord == byKey[slot].coord && m.version == byKey[slot].version
    ensures Conserved(byKey[slot := Merge(byKey[slot], m)], inputs + [m], home + [slot], lost)
  {
    hide Merge, FoldOf, Group;
    var after := byKey[slot := Merge(byKey[slot], m)];
    forall s | s in after
      ensures FoldOf(after[s], Group(inputs + [m], home + [slot], lost, s))
    {
      GroupSnoc(inputs, home, lost, m, slot, s);
      if s == slot {
        FoldOfMerge(byKey[slot], Group(inputs, home, lost, slot), m);
      } else {
        assert Group(inputs, home, lost, s) + [] == Group(inputs, home, lost, s);
      }
    }
  }

  /** A new record, and what it replaces, if anything, is lost. */
  lemma ConservedNew(byKey: Records, inputs: seq<Finding>, home: seq<Key>, lost: set<nat>, slot: Key, m: Finding)
    requires |inputs| == |home| && Conserved(byKey, inputs, home, lost)
    ensures Conserved(byKey[slot := m], inputs + [m], home + [slot], lost + SentTo(home, slot))
    ensures slot !in byKey ==> SentTo(home, slot) == {}
  {
    hide FoldOf, Group;
    var after, more := byKey[slot := m], lost + SentTo(home, slot);
    forall s | s in after
      ensures FoldOf(after[s], Group(inputs + [m], home + [slot], more, s))
    {
      GroupSnoc(inputs, home, more, m, slot, s);
      if s == slot {
        NobodyLeft(inputs, home, more, slot);
        FoldOfOne(m);
        assert [] + [m] == [m];
      } else {
        OthersKeep(inputs, home, lost, more, s);
        assert Group(inputs, home, more, s) + [] == Group(inputs, home, more, s);
      }
    }
  }

  /** `after` is `before` with every id of `rec` it lacked leading to `slot`. */
  ghost predicate Registered(before: Aliases, after: Aliases, rec: Finding, slot: Key) {
    && (forall k :: k in after <==> k in before || (SameSite(k, Primary(rec)) && Answers(rec, k.id)))
    && (forall k | k in after :: after[k] == if k in before then before[k] else slot)
  }

  /** Storing a record at its site and registering it keeps the index sound. */
  lemma StoreKeepsIndex(byKey: Records, before: Aliases, after: Aliases, slot: Key, rec: Finding)
    requires AliasesLive(byKey, before) && RecordsIndexed(byKey, before)
    requires SameSite(slot, Primary(rec)) && Registered(before, after, rec, slot)
    ensures AliasesLive(byKey[slot := rec], after) && RecordsIndexed(byKey[slot := rec], after)
  {
    hide Answers;
    forall s | s in byKey && s != slot ensures Indexed(byKey[s], after) {
      assert Indexed(byKey[s], before);
    }
  }

  /** It keeps every answer true as long as the slot's record still answers to all it did. */
  lemma StoreKeepsTruth(byKey: Records, before: Aliases, after: Aliases, slot: Key, rec: Finding)
    requires AliasesLive(byKey, before) && Truthful(byKey, before) && Registered(before, after, rec, slot)
    requires slot in byKey ==> forall id | Answers(byKey[slot], id) :: Answers(rec, id)
    requires slot !in byKey && slot.id != "" ==> Answers(rec, slot.id)
    ensures Truthful(byKey[slot := rec], after)
  {
    hide Answers;
  }

  function WithDefault(m: Finding, name: string): Finding {
    if m.source == {} then m.(source := {name}) else m
  }

  /** Where a key leads: to the slot it names, else through the alias index. */
  function Lookup(byKey: Records, aliases: Aliases, k: Key): Option<Key> {
    if k in byKey then Some(k) else if k in aliases then Some(aliases[k]) else None
  }

  function FirstLookup(byKey: Records, aliases: Aliases, m: Finding, ids: seq<string>): Option<Key> {
    if ids == [] then None
    else
      var found := Lookup(byKey, aliases, KeyOf(m, ids[0]));
      if found.Some? then found else FirstLookup(byKey, aliases, m, ids[1..])
  }

  lemma {:induction false} FirstLookupFinds(byKey: Records, aliases: Aliases, m: Finding, ids: seq<string>)
    requires AliasesLive(byKey, aliases)
    ensures FirstLookup(byKey, aliases, m, ids).None? <==> forall id | id in ids :: Lookup(byKey, aliases, KeyOf(m, id)).None?
    ensures FirstLookup(byKey, aliases, m, ids).Some? ==>
              var slot := FirstLookup(byKey, aliases, m, ids).value; slot in byKey && SameSite(slot, Primary(m))
  {
    if ids != [] {
      FirstLookupFinds(byKey, aliases, m, ids[1..]);
      assert ids == [ids[0]] + ids[1..];
    }
  }

  /** The slot found is live and of the finding's site, and a known primary id always wins. */
  lemma SlotFacts(byKey: Records, aliases: Aliases, m: Finding)
    requires AliasesLive(byKey, aliases)
    ensures var slot := FirstLookup(byKey, aliases, m, IdsOf(m));
            && (slot.None? <==> Unseen(byKey, aliases, m))
            && (slot.Some? ==> slot.value in byKey && SameSite(slot.value, Primary(m)))
            && (m.cve.id != "" && slot.Some? ==> Lookup(byKey, aliases, Primary(m)) in {None, slot})
  {
    IdsAreAnswers(m);
    FirstLookupFinds(byKey, aliases, m, IdsOf(m));
    assert m.cve.id != "" ==> |IdsOf(m)| > 0 && IdsOf(m)[0] == m.cve.id;
  }

  /** Every finding is still found under its primary id. */
  ghost predicate Homed(byKey: Records, aliases: Aliases, inputs: seq<Finding>, home: seq<Key>)
    requires |inputs| == |home|
  {
    forall i | 0 <= i < |inputs| && inputs[i].cve.id != "" ::
      Lookup(byKey, aliases, Primary(inputs[i])) == Some(home[i])
  }

  /** A lookup that succeeded never changes. */
  lemma StoreKeepsHomes(byKey: Records, before: Aliases, after: Aliases, inputs: seq<Finding>, home: seq<Key>,
                        slot: Key, rec: Finding, m: Finding)
    requires |inputs| == |home| && Homed(byKey, before, inputs, home) && Registered(before, after, rec, slot)
    requires slot !in byKey && slot.id != "" ==> slot !in before
    requires SameSite(Primary(m), Primary(rec)) && (m.cve.id != "" ==> Answers(rec, m.cve.id))
    requires m.cve.id != "" ==> Lookup(byKey, before, Primary(m)) in {None, Some(slot)}
    requires slot !in byKey ==> slot == Primary(m)
    ensures Homed(byKey[slot := rec], after, inputs + [m], home + [slot])
  {
    hide Answers;
    var now := byKey[slot := rec];
    forall i | 0 <= i < |inputs| && inputs[i].cve.id != ""
      ensures Lookup(now, after, Primary(inputs[i])) == Some(home[i])
    {
      assert Lookup(byKey, before, Primary(inputs[i])) == Some(home[i]);
    }
    if m.cve.id != "" {
      assert Primary(m) in after;
    }
  }

  // ---- Which findings are lost ----

  /** The two share an id. */
  ghost predicate Meets(m: Finding, x: Finding) {
    exists id :: Answers(m, id) && Answers(x, id)
  }

  /** One of the first's ids is the other's primary id or an alias of it. */
  ghost predicate MeetsListed(m: Finding, x: Finding) {
    exists id :: Answers(m, id) && Listed(x, id)
  }

  /** Without a primary id, and sharing no id with an earlier finding of its coordinate and version. */
  ghost predicate Stranger(inputs: seq<Finding>, i: nat) {
    && i < |inputs| && inputs[i].cve.id == ""
    && forall j | 0 <= j < i && SameSite(Primary(inputs[j]), Primary(inputs[i])) :: !Meets(inputs[i], inputs[j])
  }

  /** The same, an earlier finding's GHSA aside: a merge may have dropped it. */
  ghost predicate Unlisted(inputs: seq<Finding>, i: nat) {
    && i < |inputs| && inputs[i].cve.id == ""
    && forall j | 0 <= j < i && SameSite(Primary(inputs[j]), Primary(inputs[i])) :: !MeetsListed(inputs[i], inputs[j])
  }

  lemma StrangerSnoc(inputs: seq<Finding>, m: Finding)
    ensures forall i: nat | i < |inputs| :: Stranger(inputs + [m], i) <==> Stranger(inputs, i)
    ensures forall i: nat | i < |inputs| :: Unlisted(inputs + [m], i) <==> Unlisted(inputs, i)
  {
    hide Meets, MeetsListed;
    var all := inputs + [m];
    assert forall j | 0 <= j < |inputs| :: all[j] == inputs[j];
  }

  /** The index knows the ids of the findings taken in, and no others. */
  ghost predicate IndexTraced(byKey: Records, aliases: Aliases, inputs: seq<Finding>) {
    && (forall k | k in aliases :: exists i :: 0 <= i < |inputs| && SameSite(k, Primary(inputs[i])) && Answers(inputs[i], k.id))
    && (forall i, id | 0 <= i < |inputs| && Listed(inputs[i], id) :: KeyOf(inputs[i], id) in aliases)
    && (forall k | k in byKey && k.id != "" :: k in aliases)
  }

  /** The slot without an id is live exactly where some finding without a primary id found nothing to join. */
  ghost predicate SlotsTraced(byKey: Records, inputs: seq<Finding>, home: seq<Key>)
    requires |inputs| == |home|
  {
    && (forall k | k in byKey && k.id == "" :: exists i: nat :: Unlisted(inputs, i) && Primary(inputs[i]) == k)
    && (forall i: nat | Stranger(inputs, i) :: home[i] == Primary(inputs[i]) && home[i] in byKey)
  }

  /** A second such finding at one coordinate and version loses the first, and nothing else loses any. */
  ghost predicate LossesTraced(inputs: seq<Finding>, lost: set<nat>) {
    && (forall i | i in lost :: i < |inputs| && exists p: nat, q: nat :: IsLoss(inputs, i, p, q))
    && (forall p: nat, q: nat | p < q && Stranger(inputs, p) && Stranger(inputs, q) && Primary(inputs[p]) == Primary(inputs[q]) :: p in lost)
  }

  /** `p` and `q` found nothing listed to join at the site of `i`, and `q` came after `p` and `i`. */
  ghost predicate IsLoss(inputs: seq<Finding>, i: nat, p: nat, q: nat)
    requires i < |inputs|
  {
    p < q && i < q && Unlisted(inputs, p) && Unlisted(inputs, q) && Primary(inputs[p]) == Primary(inputs[q])
    && SameSite(Primary(inputs[i]), Primary(inputs[q]))
  }

  lemma IndexTracedSnoc(byKey: Records, now: Records, before: Aliases, after: Aliases, inputs: seq<Finding>, m: Finding)
    requires IndexTraced(byKey, before, inputs)
    requires forall k | k in before :: k in after
    requires forall k | k in after && k !in before :: SameSite(k, Primary(m)) && Answers(m, k.id)
    requires forall id | Listed(m, id) :: KeyOf(m, id) in after
    requires forall k | k in now && k !in byKey :: k == Primary(m)
    ensures IndexTraced(now, after, inputs + [m])
  {
    hide Answers;
    var all := inputs + [m];
    forall k | k in after ensures exists i :: 0 <= i < |all| && SameSite(k, Primary(all[i])) && Answers(all[i], k.id) {
      if k in before {
        var i :| 0 <= i < |inputs| && SameSite(k, Primary(inputs[i])) && Answers(inputs[i], k.id);
        assert all[i] == inputs[i];
      } else {
        assert all[|inputs|] == m;
      }
    }
    forall i, id | 0 <= i < |all| && Listed(all[i], id) ensures KeyOf(all[i], id) in after {
      if i < |inputs| { assert all[i] == inputs[i]; }
    }
    forall k | k in now && k.id != "" ensures k in after {
      if k !in byKey { assert Listed(m, k.id) && KeyOf(m, k.id) == k; }
    }
  }

  /** Seen through the index, a finding shares an id with an earlier one; unseen, no earlier one lists one of its ids. */
  lemma SeenMeans(byKey: Records, aliases: Aliases, inputs: seq<Finding>, m: Finding)
    requires IndexTraced(byKey, aliases, inputs) && m.cve.id == ""
    ensures Unseen(byKey, aliases, m) ==> Unlisted(inputs + [m], |inputs|)
    ensures Stranger(inputs + [m], |inputs|) ==> Unseen(byKey, aliases, m)
  {
    var all := inputs + [m];
    assert all[|inputs|] == m && forall j | 0 <= j < |inputs| :: all[j] == inputs[j];
    if Unseen(byKey, aliases, m) {
      forall j, id | 0 <= j < |inputs| && SameSite(Primary(inputs[j]), Primary(m)) && Listed(inputs[j], id) ensures !Answers(m, id) {
        assert KeyOf(inputs[j], id) == KeyOf(m, id);
      }
    } else {
      var id :| Answers(m, id) && (KeyOf(m, id) in byKey || KeyOf(m, id) in aliases);
      var i :| 0 <= i < |inputs| && SameSite(KeyOf(m, id), Primary(inputs[i])) && Answers(inputs[i], id);
      assert Meets(m, all[i]);
    }
  }

  lemma SlotsTracedSnoc(byKey: Records, now: Records, inputs: seq<Finding>, home: seq<Key>, m: Finding, slot: Key)
    requires |inputs| == |home| && SlotsTraced(byKey, inputs, home)
    requires forall k | k in byKey :: k in now
    requires forall k | k in now && k !in byKey && k.id == "" :: k == Primary(m) && Unlisted(inputs + [m], |inputs|)
    requires Stranger(inputs + [m], |inputs|) ==> slot == Primary(m) && slot in now
    ensures SlotsTraced(now, inputs + [m], home + [slot])
  {
    StrangerSnoc(inputs, m);
    hide Stranger, Unlisted;
    var all, homes := inputs + [m], home + [slot];
    assert forall i: nat | i < |inputs| :: all[i] == inputs[i] && homes[i] == home[i];
    assert all[|inputs|] == m && homes[|home|] == slot;
    StrangerInside(all);
    StrangerInside(inputs);
    forall k | k in now && k.id == "" ensures exists i: nat :: Unlisted(all, i) && Primary(all[i]) == k {
      if k in byKey {
        var i: nat :| Unlisted(inputs, i) && Primary(inputs[i]) == k;
        assert Unlisted(all, i);
      }
    }
    forall i: nat | Stranger(all, i) ensures homes[i] == Primary(all[i]) && homes[i] in now {
      if i < |inputs| { assert Stranger(inputs, i); }
    }
  }

  lemma StrangerInside(inputs: seq<Finding>)
    ensures forall i: nat :: (Stranger(inputs, i) ==> i < |inputs|) && (Unlisted(inputs, i) ==> i < |inputs|)
  {
  }

  lemma LossesTracedSnoc(inputs: seq<Finding>, home: seq<Key>, lost: set<nat>, more: set<nat>, m: Finding)
    requires |inputs| == |home| && LossesTraced(inputs, lost)
    requires forall i | i in lost :: i in more
    requires forall i | i in more && i !in lost :: i < |inputs| && exists p: nat :: IsLoss(inputs + [m], i, p, |inputs|)
    requires Stranger(inputs + [m], |inputs|) ==>
               forall p: nat | Stranger(inputs, p) && Primary(inputs[p]) == Primary(m) :: p in more
    ensures LossesTraced(inputs + [m], more)
  {
    StrangerSnoc(inputs, m);
    StrangerInside(inputs);
    StrangerInside(inputs + [m]);
    hide Stranger, Unlisted;
    var all := inputs + [m];
    assert forall i: nat | i < |inputs| :: all[i] == inputs[i];
    assert all[|inputs|] == m;
    forall i | i in more ensures i < |all| && exists p: nat, q: nat :: IsLoss(all, i, p, q) {
      if i in lost {
        var p: nat, q: nat :| IsLoss(inputs, i, p, q);
        assert IsLoss(all, i, p, q);
      }
    }
  }

  // ---- The whole state ----

  ghost predicate ValidMerge(byKey: Records, aliases: Aliases, inputs: seq<Finding>, home: seq<Key>, lost: set<nat>) {
    Sound(byKey, aliases, inputs, home, lost) && Traced(byKey, aliases, inputs, home, lost)
  }

  ghost predicate Sound(byKey: Records, aliases: Aliases, inputs: seq<Finding>, home: seq<Key>, lost: set<nat>) {
    && AliasesLive(byKey, aliases) && RecordsIndexed(byKey, aliases)
    && |inputs| == |home| && Homed(byKey, aliases, inputs, home)
    && Conserved(byKey, inputs, home, lost) && (lost == {} ==> Truthful(byKey, aliases))
  }

  ghost predicate Traced(byKey: Records, aliases: Aliases, inputs: seq<Finding>, home: seq<Key>, lost: set<nat>) {
    && |inputs| == |home| && AtHome(inputs, home)
    && IndexTraced(byKey, aliases, inputs) && SlotsTraced(byKey, inputs, home) && LossesTraced(inputs, lost)
  }

  ghost predicate AtHome(inputs: seq<Finding>, home: seq<Key>)
    requires |inputs| == |home|
  {
    forall i | 0 <= i < |inputs| :: SameSite(home[i], Primary(inputs[i]))
  }

  lemma MergeKeepsSound(byKey: Records, before: Aliases, after: Aliases, inputs: seq<Finding>, home: seq<Key>, lost: set<nat>,
                        slot: Key, m: Finding)
    requires Sound(byKey, before, inputs, home, lost) && slot in byKey && SameSite(slot, Primary(m))
    requires Registered(before, after, Merge(byKey[slot], m), slot)
    requires m.cve.id != "" ==> Lookup(byKey, before, Primary(m)) in {None, Some(slot)}
    ensures Sound(byKey[slot := Merge(byKey[slot], m)], after, inputs + [m], home + [slot], lost)
  {
    var merged := Merge(byKey[slot], m);
    MergeAnswers(byKey[slot], m);
    assert SameSite(slot, Primary(merged)) && (m.cve.id != "" ==> Listed(m, m.cve.id) && Answers(merged, m.cve.id));
    hide Merge, Answers, Conserved, Truthful;
    StoreKeepsIndex(byKey, before, after, slot, merged);
    StoreKeepsHomes(byKey, before, after, inputs, home, slot, merged, m);
    ConservedMerge(byKey, inputs, home, lost, slot, m);
    if lost == {} { StoreKeepsTruth(byKey, before, after, slot, merged); }
  }

  lemma TracedSnoc(byKey: Records, now: Records, before: Aliases, after: Aliases, inputs: seq<Finding>, home: seq<Key>,
                   lost: set<nat>, more: set<nat>, slot: Key, m: Finding)
    requires Traced(byKey, before, inputs, home, lost) && SameSite(slot, Primary(m)) && slot in now
    requires forall k | k in before :: k in after
    requires forall k | k in after && k !in before :: SameSite(k, Primary(m)) && Answers(m, k.id)
    requires forall id | Listed(m, id) :: KeyOf(m, id) in after
    requires forall k | k in byKey :: k in now
    requires forall k | k in now && k !in byKey :: k == Primary(m) && (k.id == "" ==> Unlisted(inputs + [m], |inputs|))
    requires Stranger(inputs + [m], |inputs|) ==> slot == Primary(m)
    requires forall i | i in lost :: i in more
    requires forall i | i in more && i !in lost :: i < |inputs| && exists p: nat :: IsLoss(inputs + [m], i, p, |inputs|)
    requires Stranger(inputs + [m], |inputs|) ==> forall p: nat | Stranger(inputs, p) && Primary(inputs[p]) == Primary(m) :: p in more
    ensures Traced(now, after, inputs + [m], home + [slot], more)
  {
    hide Answers, Listed, Stranger, Unlisted, IsLoss, IndexTraced, SlotsTraced, LossesTraced;
    IndexTracedSnoc(byKey, now, before, after, inputs, m);
    SlotsTracedSnoc(byKey, now, inputs, home, m, slot);
    LossesTracedSnoc(inputs, home, lost, more, m);
  }

  lemma MergeKeepsTraced(byKey: Records, before: Aliases, after: Aliases, inputs: seq<Finding>, home: seq<Key>, lost: set<nat>,
                         slot: Key, m: Finding)
    requires Traced(byKey, before, inputs, home, lost) && slot in byKey && SameSite(slot, Primary(m)) && !Unseen(byKey, before, m)
    requires |inputs| == |home| && RecordsIndexed(byKey, before) && Registered(before, after, Merge(byKey[slot], m), slot)
    ensures Traced(byKey[slot := Merge(byKey[slot], m)], after, inputs + [m], home + [slot], lost)
  {
    var now := byKey[slot := Merge(byKey[slot], m)];
    MergedRegisters(byKey, before, after, slot, m);
    NotAStranger(byKey, before, inputs, m);
    hide Merge, Answers, Listed, Unseen, Registered, RecordsIndexed, Stranger, Unlisted, Traced;
    TracedSnoc(byKey, now, before, after, inputs, home, lost, lost, slot, m);
  }

  lemma MergeKeepsValid(byKey: Records, before: Aliases, after: Aliases, inputs: seq<Finding>, home: seq<Key>, lost: set<nat>,
                        slot: Key, m: Finding)
    requires ValidMerge(byKey, before, inputs, home, lost) && slot in byKey && SameSite(slot, Primary(m))
    requires Registered(before, after, Merge(byKey[slot], m), slot)
    requires m.cve.id != "" ==> Lookup(byKey, before, Primary(m)) in {None, Some(slot)}
    requires !Unseen(byKey, before, m)
    ensures ValidMerge(byKey[slot := Merge(byKey[slot], m)], after, inputs + [m], home + [slot], lost)
  {
    assert RecordsIndexed(byKey, before);
    hide Sound, Traced, Merge, Registered, RecordsIndexed, Unseen;
    MergeKeepsSound(byKey, before, after, inputs, home, lost, slot, m);
    MergeKeepsTraced(byKey, before, after, inputs, home, lost, slot, m);
  }

  lemma NotAStranger(byKey: Records, aliases: Aliases, inputs: seq<Finding>, m: Finding)
    requires IndexTraced(byKey, aliases, inputs) && !Unseen(byKey, aliases, m)
    ensures !Stranger(inputs + [m], |inputs|)
  {
    if m.cve.id == "" { SeenMeans(byKey, aliases, inputs, m); }
  }

  /** What a merge adds to the index are ids of the finding merged in, among them all it lists. */
  lemma MergedRegisters(byKey: Records, before: Aliases, after: Aliases, slot: Key, m: Finding)
    requires RecordsIndexed(byKey, before) && slot in byKey && SameSite(slot, Primary(m))
    requires Registered(before, after, Merge(byKey[slot], m), slot)
    ensures forall k | k in before :: k in after
    ensures forall k | k in after && k !in before :: SameSite(k, Primary(m)) && Answers(m, k.id)
    ensures forall id | Listed(m, id) :: KeyOf(m, id) in after
  {
    var prev, merged := byKey[slot], Merge(byKey[slot], m);
    MergeAnswers(prev, m);
    assert Indexed(prev, before) && SameSite(Primary(prev), Primary(m)) && SameSite(Primary(merged), Primary(m));
    hide Merge, RecordsIndexed;
    forall id | Listed(m, id) ensures KeyOf(m, id) in after {
      assert Listed(merged, id) && Answers(merged, id) && KeyOf(m, id).id == id;
    }
    forall k | k in after && k !in before ensures SameSite(k, Primary(m)) && Answers(m, k.id) {
      assert KeyOf(prev, k.id) == k;
    }
  }

  lemma NewKeepsSound(byKey: Records, before: Aliases, after: Aliases, inputs: seq<Finding>, home: seq<Key>, lost: set<nat>,
                      m: Finding)
    requires Sound(byKey, before, inputs, home, lost) && Registered(before, after, m, Primary(m)) && Unseen(byKey, before, m)
    ensures Sound(byKey[Primary(m) := m], after, inputs + [m], home + [Primary(m)], lost + SentTo(home, Primary(m)))
  {
    var slot := Primary(m);
    assert slot.id != "" ==> Answers(m, slot.id);
    hide Answers, Conserved, Truthful;
    StoreKeepsIndex(byKey, before, after, slot, m);
    StoreKeepsHomes(byKey, before, after, inputs, home, slot, m, m);
    ConservedNew(byKey, inputs, home, lost, slot, m);
    if lost + SentTo(home, slot) == {} {
      LiveIsUsed(byKey, inputs, home, lost, slot);
      StoreKeepsTruth(byKey, before, after, slot, m);
    }
  }

  lemma NewRegisters(before: Aliases, after: Aliases, m: Finding)
    requires Registered(before, after, m, Primary(m))
    ensures forall k | k in before :: k in after
    ensures forall k | k in after && k !in before :: SameSite(k, Primary(m)) && Answers(m, k.id)
    ensures forall id | Listed(m, id) :: KeyOf(m, id) in after
  {
    forall id | Listed(m, id) ensures KeyOf(m, id) in after { assert Answers(m, id) && KeyOf(m, id).id == id; }
  }

  lemma NewKeepsTraced(byKey: Records, before: Aliases, after: Aliases, inputs: seq<Finding>, home: seq<Key>, lost: set<nat>,
                       m: Finding)
    requires Traced(byKey, before, inputs, home, lost) && Registered(before, after, m, Primary(m)) && Unseen(byKey, before, m)
    requires forall i | 0 <= i < |home| :: home[i] in byKey
    ensures Traced(byKey[Primary(m) := m], after, inputs + [m], home + [Primary(m)], lost + SentTo(home, Primary(m)))
  {
    var slot := Primary(m);
    var now, more := byKey[slot := m], lost + SentTo(home, slot);
    NewRegisters(before, after, m);
    if m.cve.id == "" { SeenMeans(byKey, before, inputs, m); }
    NewSlot(byKey, before, inputs, home, m);
    hide Answers, Listed, Unseen, Registered, Stranger, Unlisted, IsLoss, SentTo, Traced;
    TracedSnoc(byKey, now, before, after, inputs, home, lost, more, slot, m);
  }

  lemma NewKeepsValid(byKey: Records, before: Aliases, after: Aliases, inputs: seq<Finding>, home: seq<Key>, lost: set<nat>,
                      m: Finding)
    requires ValidMerge(byKey, before, inputs, home, lost) && Registered(before, after, m, Primary(m))
    requires Unseen(byKey, before, m)
    ensures ValidMerge(byKey[Primary(m) := m], after, inputs + [m], home + [Primary(m)], LostAfter(lost, home, Primary(m)))
  {
    assert forall i | 0 <= i < |home| :: home[i] in byKey;
    hide Sound, Traced, Registered, Unseen, SentTo;
    NewKeepsSound(byKey, before, after, inputs, home, lost, m);
    NewKeepsTraced(byKey, before, after, inputs, home, lost, m);
  }

  /** A live slot was used by some finding. */
  lemma LiveIsUsed(byKey: Records, inputs: seq<Finding>, home: seq<Key>, lost: set<nat>, slot: Key)
    requires |inputs| == |home| && Conserved(byKey, inputs, home, lost)
    ensures slot in byKey ==> SentTo(home, slot) != {}
  {
    if i :| 0 <= i < |home| && home[i] == slot {
      assert i in SentTo(home, slot);
    } else {
      NobodyLeft(inputs, home, lost, slot);
    }
  }

  /** What making a record for an unseen finding loses, and what a stranger loses for sure. */
  lemma NewSlot(byKey: Records, aliases: Aliases, inputs: seq<Finding>, home: seq<Key>, m: Finding)
    requires |inputs| == |home| && SlotsTraced(byKey, inputs, home) && AtHome(inputs, home)
    requires Unseen(byKey, aliases, m) && (m.cve.id == "" ==> Unlisted(inputs + [m], |inputs|))
    requires forall i | 0 <= i < |home| :: home[i] in byKey
    ensures forall i | i in SentTo(home, Primary(m)) :: i < |inputs| && exists p: nat :: IsLoss(inputs + [m], i, p, |inputs|)
    ensures forall p: nat | Stranger(inputs, p) && Primary(inputs[p]) == Primary(m) :: p in SentTo(home, Primary(m))
  {
    var all := inputs + [m];
    StrangerSnoc(inputs, m);
    StrangerInside(inputs);
    assert m.cve.id != "" ==> Answers(m, m.cve.id);
    hide Stranger, Unlisted, Answers;
    assert forall i: nat | i < |inputs| :: all[i] == inputs[i];
    assert all[|inputs|] == m;
    forall i | i in SentTo(home, Primary(m)) ensures i < |inputs| && exists p: nat :: IsLoss(all, i, p, |inputs|) {
      assert home[i] == Primary(m) && Primary(m) in byKey && m.cve.id == "";
      var p: nat :| Unlisted(inputs, p) && Primary(inputs[p]) == Primary(m);
      assert IsLoss(all, i, p, |inputs|);
    }
  }

  lemma UnseenWithDefault(byKey: Records, aliases: Aliases, m: Finding, name: string)
    requires Unseen(byKey, aliases, m)
    ensures Unseen(byKey, aliases, WithDefault(m, name))
  {
    var rec := WithDefault(m, name);
    forall id | Answers(rec, id) ensures KeyOf(rec, id) !in byKey && KeyOf(rec, id) !in aliases {
      assert Answers(m, id) && KeyOf(m, id) == KeyOf(rec, id);
    }
  }

  lemma OnlyNamelessReplace(byKey: Records, aliases: Aliases, m: Finding)
    requires Unseen(byKey, aliases, m)
    ensures Primary(m) in byKey ==> m.cve.id == ""
  {
    assert m.cve.id != "" ==> Answers(m, m.cve.id);
  }

  class Merger {
    var byKey: Records
    var aliasIndex: Aliases
    /** The findings taken in so far, and the slot each one went to. */
    ghost var inputs: seq<Finding>
    ghost var home: seq<Key>
    /** Those whose record has since been replaced by a finding without a primary id. */
    ghost var lost: set<nat>

    ghost predicate Valid()
      reads this
    {
      ValidMerge(byKey, aliasIndex, inputs, home, lost)
    }

    constructor ()
      ensures Valid() && lost == {} && inputs == [] && byKey == map[] && aliasIndex == map[]
    {
      byKey, aliasIndex, inputs, home, lost := map[], map[], [], [], {};
    }

    lemma Means()
      requires Valid()
      ensures |inputs| == |home| && SamePrimarySameHome(inputs, home)
      ensures forall slot | slot in byKey :: SameSite(slot, Primary(byKey[slot]))
      ensures Conserved(byKey, inputs, home, lost) && LossesTraced(inputs, lost)
    {
      hide ValidMerge, SamePrimarySameHome, Conserved, LossesTraced;
      ValidMeans(byKey, aliasIndex, inputs, home, lost);
    }

    method FindSlot(m: Finding) returns (slot: Option<Key>)
      ensures slot == FirstLookup(byKey, aliasIndex, m, IdsOf(m))
    {
      var ids := IdsOf(m);
      for i := 0 to |ids|
        invariant FirstLookup(byKey, aliasIndex, m, ids) == FirstLookup(byKey, aliasIndex, m, ids[i..])
      {
        var k := KeyOf(m, ids[i]);
        if k in byKey { return Some(k); }
        if k in aliasIndex { return Some(aliasIndex[k]); }
      }
      return None;
    }

    method Register(rec: Finding, slot: Key)
      modifies this`aliasIndex
      ensures Registered(old(aliasIndex), aliasIndex, rec, slot)
    {
      IdsAreAnswers(rec);
      hide Answers, IdsOf;
      var ids := IdsOf(rec);
      for i := 0 to |ids|
        invariant forall k :: k in aliasIndex <==> k in old(aliasIndex) || (SameSite(k, Primary(rec)) && k.id in ids[..i])
        invariant forall k | k in aliasIndex :: aliasIndex[k] == if k in old(aliasIndex) then old(aliasIndex)[k] else slot
      {
        var k := KeyOf(rec, ids[i]);
        if k !in aliasIndex { aliasIndex := aliasIndex[k := slot]; }
        assert ids[..i + 1] == ids[..i] + [ids[i]];
      }
      assert ids[..|ids|] == ids;
    }

    method MergeInto(slot: Key, m: Finding)
      requires Valid() && slot in byKey && SameSite(slot, Primary(m)) && !Unseen(byKey, aliasIndex, m)
      requires m.cve.id != "" ==> Lookup(byKey, aliasIndex, Primary(m)) in {None, Some(slot)}
      modifies this
      ensures Valid() && lost == old(lost)
      ensures byKey == old(byKey)[slot := Merge(old(byKey)[slot], m)]
      ensures inputs == old(inputs) + [m] && home == old(home) + [slot]
    {
      hide ValidMerge, Registered, Merge, Unseen;
      var merged := Merge(byKey[slot], m);
      Register(merged, slot);
      MergeKeepsValid(byKey, old(aliasIndex), aliasIndex, inputs, home, lost, slot, m);
      byKey := byKey[slot := merged];
      inputs, home := inputs + [m], home + [slot];
    }

    /** A record of its own, at the finding's primary key; what was sent there before is lost. */
    method AddNew(m: Finding)
      requires Valid() && Unseen(byKey, aliasIndex, m)
      modifies this
      ensures Valid() && lost == LostAfter(old(lost), old(home), Primary(m))
      ensures Primary(m) in old(byKey) ==> m.cve.id == ""
      ensures byKey == old(byKey)[Primary(m) := m] && Registered(old(aliasIndex), aliasIndex, m, Primary(m))
      ensures inputs == old(inputs) + [m] && home == old(home) + [Primary(m)]
    {
      hide ValidMerge, Registered, Answers, Unseen, SentTo, LostAfter, Primary, KeyOf;
      OnlyNamelessReplace(byKey, aliasIndex, m);
      Register(m, Primary(m));
      NewKeepsValid(byKey, old(aliasIndex), aliasIndex, inputs, home, lost, m);
      byKey, lost, inputs, home := byKey[Primary(m) := m], LostAfter(lost, home, Primary(m)), inputs + [m], home + [Primary(m)];
    }

    /** Folds the finding into the record that knows it, or makes it a record of its own. */
    method Take(m: Finding, fallback: string)
      requires Valid()
      modifies this
      ensures Valid() && exists taken :: taken in {m, WithDefault(m, fallback)} && inputs == old(inputs) + [taken]
      ensures AllSourced(old(byKey)) ==> AllSourced(byKey)
    {
      SlotFacts(byKey, aliasIndex, m);
      hide ValidMerge, AllSourced, Merge, Unseen, Registered, LostAfter, FirstLookup, WithDefault, Primary, SameSite, IdsOf, Lookup;
      var slot := FindSlot(m);
      if slot.Some? {
        if AllSourced(byKey) { SourcedMerge(byKey, slot.value, m); }
        MergeInto(slot.value, m);
      } else {
        UnseenWithDefault(byKey, aliasIndex, m, fallback);
        SourcedNew(byKey, m, fallback);
        AddNew(WithDefault(m, fallback));
      }
    }
  }

  /** No record is left without a source. */
  predicate AllSourced(byKey: Records) {
    forall slot | slot in byKey :: byKey[slot].source != {}
  }

  lemma SourcedMerge(byKey: Records, slot: Key, m: Finding)
    requires slot in byKey && AllSourced(byKey)
    ensures AllSourced(byKey[slot := Merge(byKey[slot], m)])
  {
    hide Without, IsCve, MergedScore;
  }

  lemma SourcedNew(byKey: Records, m: Finding, name: string)
    ensures AllSourced(byKey) ==> AllSourced(byKey[Primary(WithDefault(m, name)) := WithDefault(m, name)])
  {
    hide Primary;
  }

  function Raw(m: Finding): Finding {
    m.(source := {})
  }

  /** `taken` is the finding as merged: with its own source, or where it has none with the lane's default or none. */
  predicate TakenAs(raw: Finding, taken: Finding, lane: string) {
    Raw(raw) == Raw(taken) && taken.source in (if raw.source == {} then {{}, {lane}} else {raw.source})
  }

  method TakeExisting(merger: Merger, existing: seq<Finding>)
    requires merger.Valid() && merger.inputs == [] && AllSourced(merger.byKey)
    modifies merger
    ensures merger.Valid() && |merger.inputs| == |existing| && AllSourced(merger.byKey)
    ensures forall i | 0 <= i < |existing| :: TakenAs(existing[i], merger.inputs[i], "fad") && merger.inputs[i].source != {}
  {
    hide ValidMerge;
    for i := 0 to |existing|
      invariant merger.Valid() && |merger.inputs| == i && AllSourced(merger.byKey)
      invariant forall k | 0 <= k < i :: TakenAs(existing[k], merger.inputs[k], "fad") && merger.inputs[k].source != {}
    {
      var rec := WithDefault(existing[i], "fad");
      merger.Take(rec, "fad");
    }
  }

  method TakeAdditions(merger: Merger, additions: seq<Finding>)
    requires merger.Valid() && AllSourced(merger.byKey)
    modifies merger
    ensures merger.Valid() && |merger.inputs| == |old(merger.inputs)| + |additions| && AllSourced(merger.byKey)
    ensures merger.inputs[..|old(merger.inputs)|] == old(merger.inputs)
    ensures forall i | 0 <= i < |additions| :: TakenAs(additions[i], merger.inputs[|old(merger.inputs)| + i], "osv")
  {
    hide ValidMerge;
    ghost var n := |merger.inputs|;
    for i := 0 to |additions|
      invariant merger.Valid() && |merger.inputs| == n + i && merger.inputs[..n] == old(merger.inputs) && AllSourced(merger.byKey)
      invariant forall k | 0 <= k < i :: TakenAs(additions[k], merger.inputs[n + k], "osv")
    {
      merger.Take(additions[i], "osv");
    }
  }

  /**
   * Every finding is sent to one record of its coordinate and version, findings with one primary id
   * to the same one. Each record keeps all ids, all sources and the highest score of the findings
   * sent to it, except the lost ones: those sent to a record that a finding without a primary id,
   * known by none of its ids, replaced.
   */
  method MergeBySource(existing: seq<Finding>, additions: seq<Finding>)
    returns (out: Records, ghost taken: seq<Finding>, ghost home: seq<Key>, ghost lost: set<nat>)
    ensures |taken| == |home| == |existing| + |additions|
    ensures forall i | 0 <= i < |existing| :: TakenAs(existing[i], taken[i], "fad") && taken[i].source != {}
    ensures forall i | 0 <= i < |additions| :: TakenAs(additions[i], taken[|existing| + i], "osv")
    ensures AllSourced(out)
    ensures forall slot | slot in out :: SameSite(slot, Primary(out[slot]))
    ensures SamePrimarySameHome(taken, home)
    ensures Conserved(out, taken, home, lost) && LossesTraced(existing + additions, lost)
  {
    hide *;
    var merger := new Merger();
    NothingSourced();
    TakeExisting(merger, existing);
    TakeAdditions(merger, additions);
    out, taken, home, lost := merger.byKey, merger.inputs, merger.home, merger.lost;
    merger.Means();
    assert forall i | 0 <= i < |existing| :: taken[i] == taken[..|existing|][i];
    SameRaw(existing, additions, taken);
    SameLosses(existing + additions, taken, lost);
  }

  lemma SameRaw(existing: seq<Finding>, additions: seq<Finding>, taken: seq<Finding>)
    requires |taken| == |existing| + |additions|
    requires forall i | 0 <= i < |existing| :: TakenAs(existing[i], taken[i], "fad")
    requires forall i | 0 <= i < |additions| :: TakenAs(additions[i], taken[|existing| + i], "osv")
    ensures forall i | 0 <= i < |taken| :: Raw((existing + additions)[i]) == Raw(taken[i])
  {
    hide Raw;
    forall i | 0 <= i < |taken| ensures Raw((existing + additions)[i]) == Raw(taken[i]) {
      if i >= |existing| { assert TakenAs(additions[i - |existing|], taken[|existing| + (i - |existing|)], "osv"); }
    }
  }

  lemma NothingSourced()
    ensures AllSourced(map[])
  {
  }

  lemma ValidMeans(byKey: Records, aliases: Aliases, inputs: seq<Finding>, home: seq<Key>, lost: set<nat>)
    requires ValidMerge(byKey, aliases, inputs, home, lost)
    ensures |inputs| == |home| && SamePrimarySameHome(inputs, home)
    ensures forall slot | slot in byKey :: SameSite(slot, Primary(byKey[slot]))
    ensures Conserved(byKey, inputs, home, lost) && LossesTraced(inputs, lost)
  {
    hide Conserved, LossesTraced, IndexTraced, SlotsTraced, Truthful;
  }

  ghost predicate SamePrimarySameHome(taken: seq<Finding>, home: seq<Key>)
    requires |taken| == |home|
  {
    forall i, j | 0 <= i < |taken| && 0 <= j < |taken| && taken[i].cve.id != "" && Primary(taken[i]) == Primary(taken[j]) ::
      home[i] == home[j]
  }

  /** A default source changes nothing about who meets whom. */
  lemma SameLosses(all: seq<Finding>, taken: seq<Finding>, lost: set<nat>)
    requires |all| == |taken| && LossesTraced(taken, lost) && forall i | 0 <= i < |taken| :: Raw(all[i]) == Raw(taken[i])
    ensures LossesTraced(all, lost)
  {
    forall i | 0 <= i < |all| ensures all[i].cve == taken[i].cve && Primary(all[i]) == Primary(taken[i]) {
      assert Raw(all[i]).cve == Raw(taken[i]).cve && Raw(all[i]).coord == Raw(taken[i]).coord && Raw(all[i]).version == Raw(taken[i]).version;
    }
    SameStrangers(all, taken);
    StrangerInside(all);
    StrangerInside(taken);
    hide Stranger, Unlisted;
    forall i | i in lost ensures i < |all| && exists p: nat, q: nat :: IsLoss(all, i, p, q) {
      var p: nat, q: nat :| IsLoss(taken, i, p, q);
      assert IsLoss(all, i, p, q);
    }
  }

  lemma SameStrangers(all: seq<Finding>, taken: seq<Finding>)
    requires |all| == |taken| && forall i | 0 <= i < |all| :: all[i].cve == taken[i].cve && Primary(all[i]) == Primary(taken[i])
    ensures forall i: nat :: (Stranger(all, i) <==> Stranger(taken, i)) && (Unlisted(all, i) <==> Unlisted(taken, i))
  {
    forall i, j | 0 <= i < |all| && 0 <= j < |all|
      ensures Meets(all[i], all[j]) <==> Meets(taken[i], taken[j])
      ensures MeetsListed(all[i], all[j]) <==> MeetsListed(taken[i], taken[j])
    {
      assert forall id :: Answers(all[i], id) <==> Answers(taken[i], id);
      assert forall id :: Answers(all[j], id) <==> Answers(taken[j], id);
      assert forall id :: Listed(all[j], id) <==> Listed(taken[j], id);
    }
    hide Meets, MeetsListed;
  }

  // ---- When nothing is lost, in terms a caller can check ----

  /** Two findings without a primary id at one coordinate and version. */
  ghost predicate TwoNameless(all: seq<Finding>) {
    exists p: nat, q: nat :: p < q < |all| && all[p].cve.id == "" && Primary(all[p]) == Primary(all[q])
  }

  /** Two of them that share no id with anything earlier there. */
  ghost predicate TwoStrangers(all: seq<Finding>) {
    exists p: nat, q: nat :: p < q && Stranger(all, p) && Stranger(all, q) && Primary(all[p]) == Primary(all[q])
  }

  lemma OneNamelessLosesNothing(all: seq<Finding>, lost: set<nat>)
    requires LossesTraced(all, lost) && !TwoNameless(all)
    ensures lost == {}
  {
    if i :| i in lost { LossMeansTwo(all, lost, i); }
  }

  lemma LossMeansTwo(all: seq<Finding>, lost: set<nat>, i: nat)
    requires LossesTraced(all, lost) && i in lost
    ensures TwoNameless(all)
  {
    var p: nat, q: nat :| IsLoss(all, i, p, q);
    assert p < q < |all| && all[p].cve.id == "";
  }

  /** Where every GHSA is also an alias, something is lost exactly when two strangers meet. */
  lemma LostIffTwoStrangers(all: seq<Finding>, lost: set<nat>)
    requires LossesTraced(all, lost)
    requires forall m | m in all :: m.cve.ghsa == "" || m.cve.ghsa in m.cve.aliases
    ensures lost != {} <==> TwoStrangers(all)
  {
    forall i: nat | Unlisted(all, i) ensures Stranger(all, i) {
      forall j | 0 <= j < i && SameSite(Primary(all[j]), Primary(all[i])) ensures !Meets(all[i], all[j]) {
        assert all[j] in all;
        assert forall id | Answers(all[j], id) :: Listed(all[j], id);
      }
    }
    hide Stranger, Unlisted;
    if lost != {} {
      var i :| i in lost;
      var p: nat, q: nat :| IsLoss(all, i, p, q);
      assert Stranger(all, p) && Stranger(all, q);
    }
  }

  /** Where findings without a primary id carry no id at all, something is lost exactly when two share a site. */
  lemma LostIffTwoNameless(all: seq<Finding>, lost: set<nat>)
    requires LossesTraced(all, lost)
    requires forall m | m in all && m.cve.id == "" :: forall id :: !Answers(m, id)
    ensures lost != {} <==> TwoNameless(all)
  {
    if TwoNameless(all) {
      var p: nat, q: nat :| p < q < |all| && all[p].cve.id == "" && Primary(all[p]) == Primary(all[q]);
      assert all[q].cve.id == "" && all[p] in all && all[q] in all;
      assert Stranger(all, p) && Stranger(all, q);
    }
    if i :| i in lost { LossMeansTwo(all, lost, i); }
  }

  /**
   * Two findings without a primary id that share no id, two GHSAs for instance: the second replaces
   * the first, whose ids then lead to a record that answers to none of them.
   */
  method NamelessFindingsOverwrite(a: Finding, b: Finding) returns (out: Records, aliases: Aliases)
    requires a.coord == b.coord && a.version == b.version && a.cve.id == "" && b.cve.id == "" && !Meets(a, b)
    ensures out == map[Key(a.coord, a.version, "") := b]
    ensures forall id | Answers(a, id) ::
              && KeyOf(a, id) in aliases && aliases[KeyOf(a, id)] == Key(a.coord, a.version, "")
              && !Answers(out[aliases[KeyOf(a, id)]], id)
  {
    var merger := new Merger();
    hide ValidMerge;
    merger.AddNew(a);
    forall id | Answers(b, id) ensures KeyOf(b, id) !in merger.byKey && KeyOf(b, id) !in merger.aliasIndex {
      assert !Answers(a, id) && id != "";
    }
    merger.AddNew(b);
    out, aliases := merger.byKey, merger.aliasIndex;
  }
}
