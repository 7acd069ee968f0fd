/**
 * lib/certfr.js:64-113: refreshing the advisory index with a pool of workers, under every
 * interleaving of their replies, and inverting the index.
 *
 * The listings and each worker's reply are inputs. An object of the index keyed by reference is a
 * map, or, where its order shows, a list of pairs.
 */
module CertFr {
  import opened Basics
  import opened Orders

  datatype Entry = Entry(kind: string, rev: string, title: string, cves: seq<string>)

  /** A listed advisory; a missing reference, date or title is the empty string. */
  datatype Row = Row(ref: string, rev: string, title: string)

  datatype Listing = Listing(kind: string, rows: seq<Row>)

  datatype Job = Job(kind: string, ref: string, rev: string, title: string)

  /** Found, definitively gone (404 or 410), or failed and to be retried another time. */
  datatype Reply = Found(cves: seq<string>) | Gone | Failed

  type Entries = map<string, Entry>

  // ---- What is stale ----

  predicate IsStale(entries: Entries, row: Row) {
    row.ref != "" && !(row.ref in entries && entries[row.ref].rev == row.rev)
  }

  function StaleAdvisories(rows: seq<Row>, entries: Entries, kind: string): (jobs: seq<Job>)
    ensures forall j :: j in jobs <==> exists row | row in rows :: IsStale(entries, row) && j == Job(kind, row.ref, row.rev, row.title)
  {
    if rows == [] then []
    else
      assert forall row :: row in rows <==> row == rows[0] || row in rows[1..];
      (if IsStale(entries, rows[0]) then [Job(kind, rows[0].ref, rows[0].rev, rows[0].title)] else []) + StaleAdvisories(rows[1..], entries, kind)
  }

  /** Everything to fetch, listing by listing, judged against the entries as they stand. */
  function Todo(listings: seq<Listing>, entries: Entries): seq<Job> {
    if listings == [] then []
    else StaleAdvisories(listings[0].rows, entries, listings[0].kind) + Todo(listings[1..], entries)
  }

  lemma {:induction false} StaleInOrder(rows: seq<Row>, more: seq<Row>, entries: Entries, kind: string)
    ensures StaleAdvisories(rows + more, entries, kind) == StaleAdvisories(rows, entries, kind) + StaleAdvisories(more, entries, kind)
  {
    hide StaleAdvisories, IsStale;
    StaleFirst(rows, entries, kind);
    StaleFirst(rows + more, entries, kind);
    if rows == [] {
      assert rows + more == more;
    } else {
      StaleInOrder(rows[1..], more, entries, kind);
      assert (rows + more)[1..] == rows[1..] + more;
    }
  }

  lemma StaleFirst(rows: seq<Row>, entries: Entries, kind: string)
    ensures StaleAdvisories(rows, entries, kind) ==
            if rows == [] then []
            else (if IsStale(entries, rows[0]) then [Job(kind, rows[0].ref, rows[0].rev, rows[0].title)] else []) + StaleAdvisories(rows[1..], entries, kind)
  {
  }

  /** Jobs are made listing by listing, row by row. */
  lemma {:induction false} TodoInOrder(listings: seq<Listing>, more: seq<Listing>, entries: Entries)
    ensures Todo(listings + more, entries) == Todo(listings, entries) + Todo(more, entries)
  {
    hide StaleAdvisories;
    if listings == [] {
      assert listings + more == more;
    } else {
      assert (listings + more)[1..] == listings[1..] + more;
      TodoInOrder(listings[1..], more, entries);
    }
  }

  predicate IsListed(listings: seq<Listing>, kind: string, row: Row) {
    exists i :: 0 <= i < |listings| && listings[i].kind == kind && row in listings[i].rows
  }

  lemma {:induction false} TodoIsStale(listings: seq<Listing>, entries: Entries)
    ensures forall j :: j in Todo(listings, entries) <==>
              IsListed(listings, j.kind, Row(j.ref, j.rev, j.title)) && IsStale(entries, Row(j.ref, j.rev, j.title))
  {
    if listings != [] {
      TodoIsStale(listings[1..], entries);
      forall j ensures j in Todo(listings, entries) <==>
                         IsListed(listings, j.kind, Row(j.ref, j.rev, j.title)) && IsStale(entries, Row(j.ref, j.rev, j.title))
      {
        var row := Row(j.ref, j.rev, j.title);
        if IsListed(listings[1..], j.kind, row) {
          var i :| 0 <= i < |listings[1..]| && listings[1..][i].kind == j.kind && row in listings[1..][i].rows;
          assert listings[i + 1] == listings[1..][i];
        }
        if i :| 0 <= i < |listings| && listings[i].kind == j.kind && row in listings[i].rows && i > 0 {
          assert listings[1..][i - 1] == listings[i];
        }
      }
    }
  }

  // ---- The pool of workers ----

  /** `busy` gives each working worker its job; `handled` is the history of replies. */
  datatype Pool = Pool(next: nat, busy: map<nat, nat>, handled: seq<(nat, Reply)>, done: nat, failed: nat, entries: Entries)

  function Initial(entries: Entries): Pool {
    Pool(0, map[], [], 0, 0, entries)
  }

  function Written(entries: Entries, a: Job, reply: Reply): Entries {
    match reply
    case Found(cves) => entries[a.ref := Entry(a.kind, a.rev, a.title, cves)]
    case Gone => entries[a.ref := Entry(a.kind, a.rev, a.title, [])]
    case Failed => entries
  }

  predicate CanTake(todo: seq<Job>, workers: nat, s: Pool, w: nat) {
    w < workers && w !in s.busy && s.next < |todo|
  }

  function Taken(s: Pool, w: nat): Pool {
    s.(next := s.next + 1, busy := s.busy[w := s.next])
  }

  predicate CanAnswer(todo: seq<Job>, s: Pool, w: nat) {
    w in s.busy && s.busy[w] < |todo|
  }

  function Answered(todo: seq<Job>, s: Pool, w: nat, reply: Reply): Pool
    requires CanAnswer(todo, s, w)
  {
    s.(busy := s.busy - {w}, handled := s.handled + [(s.busy[w], reply)], done := s.done + 1,
       failed := if reply == Failed then s.failed + 1 else s.failed, entries := Written(s.entries, todo[s.busy[w]], reply))
  }

  ghost predicate Step(todo: seq<Job>, workers: nat, s: Pool, t: Pool) {
    || (exists w: nat :: CanTake(todo, workers, s, w) && t == Taken(s, w))
    || (exists w: nat, reply :: CanAnswer(todo, s, w) && t == Answered(todo, s, w, reply))
  }

  ghost predicate IsRun(todo: seq<Job>, workers: nat, entries: Entries, states: seq<Pool>) {
    && states != [] && states[0] == Initial(entries)
    && forall i :: 0 <= i < |states| - 1 ==> Step(todo, workers, states[i], states[i + 1])
  }

  predicate Finished(todo: seq<Job>, s: Pool) {
    s.busy == map[] && s.next == |todo|
  }

  // ---- What every step keeps ----

  predicate InHand(s: Pool, i: nat) {
    exists w :: w in s.busy && s.busy[w] == i
  }

  predicate IsHandled(s: Pool, i: nat) {
    exists k :: 0 <= k < |s.handled| && s.handled[k].0 == i
  }

  function CountFailed(handled: seq<(nat, Reply)>): nat {
    if handled == [] then 0 else CountFailed(handled[..|handled| - 1]) + if handled[|handled| - 1].1 == Failed then 1 else 0
  }

  function AllWritten(entries: Entries, todo: seq<Job>, handled: seq<(nat, Reply)>): Entries {
    if handled == [] then entries
    else
      var before, (i, reply) := AllWritten(entries, todo, handled[..|handled| - 1]), handled[|handled| - 1];
      if i < |todo| then Written(before, todo[i], reply) else before
  }

  /** Every job taken so far is in exactly one worker's hands or has been handled exactly once. */
  ghost predicate Inv(todo: seq<Job>, workers: nat, entries: Entries, s: Pool) {
    && s.next <= |todo|
    && (forall w | w in s.busy :: w < workers && s.busy[w] < s.next && !IsHandled(s, s.busy[w]))
    && (forall w, x | w in s.busy && x in s.busy && w != x :: s.busy[w] != s.busy[x])
    && (forall k | 0 <= k < |s.handled| :: s.handled[k].0 < s.next)
    && (forall j, k | 0 <= j < k < |s.handled| :: s.handled[j].0 != s.handled[k].0)
    && (forall i: nat | i < s.next :: InHand(s, i) || IsHandled(s, i))
    && s.done == |s.handled| && s.failed == CountFailed(s.handled)
    && s.entries == AllWritten(entries, todo, s.handled)
  }

  lemma TakeKeeps(todo: seq<Job>, workers: nat, entries: Entries, s: Pool, w: nat)
    requires Inv(todo, workers, entries, s) && CanTake(todo, workers, s, w)
    ensures Inv(todo, workers, entries, Taken(s, w))
  {
    var t := Taken(s, w);
    hide CountFailed, AllWritten;
    forall i: nat ensures IsHandled(t, i) <==> IsHandled(s, i) { }
    forall i: nat | i < t.next ensures InHand(t, i) || IsHandled(t, i) {
      if i == s.next {
        assert t.busy[w] == i;
      } else if InHand(s, i) {
        var x :| x in s.busy && s.busy[x] == i;
        assert t.busy[x] == i;
      }
    }
    assert !IsHandled(s, s.next);
  }

  lemma AnswerKeeps(todo: seq<Job>, workers: nat, entries: Entries, s: Pool, w: nat, reply: Reply)
    requires Inv(todo, workers, entries, s) && CanAnswer(todo, s, w)
    ensures Inv(todo, workers, entries, Answered(todo, s, w, reply))
  {
    hide CountFailed, AllWritten, Written, InHand;
    var t := Answered(todo, s, w, reply);
    HistorySnoc(entries, todo, s.handled, s.busy[w], reply);
    HandledMore(todo, s, w, reply);
    assert s.busy[w] < s.next && t.next == s.next;
  }

  lemma HistorySnoc(entries: Entries, todo: seq<Job>, handled: seq<(nat, Reply)>, i: nat, reply: Reply)
    requires i < |todo|
    ensures CountFailed(handled + [(i, reply)]) == CountFailed(handled) + if reply == Failed then 1 else 0
    ensures AllWritten(entries, todo, handled + [(i, reply)]) == Written(AllWritten(entries, todo, handled), todo[i], reply)
  {
    assert (handled + [(i, reply)])[..|handled|] == handled;
  }

  /** An answer moves one job from a worker's hands to the handled ones. */
  lemma HandledMore(todo: seq<Job>, s: Pool, w: nat, reply: Reply)
    requires CanAnswer(todo, s, w)
    ensures var t := Answered(todo, s, w, reply);
            && (forall i: nat :: IsHandled(t, i) <==> IsHandled(s, i) || i == s.busy[w])
            && (forall i: nat | InHand(s, i) && i != s.busy[w] :: InHand(t, i))
  {
    hide Written;
    var t := Answered(todo, s, w, reply);
    assert t.handled[|s.handled|] == (s.busy[w], reply);
    forall i: nat ensures IsHandled(t, i) <==> IsHandled(s, i) || i == s.busy[w] {
      if IsHandled(s, i) {
        var k :| 0 <= k < |s.handled| && s.handled[k].0 == i;
        assert t.handled[k].0 == i;
      }
    }
    forall i: nat | InHand(s, i) && i != s.busy[w] ensures InHand(t, i) {
      var x :| x in s.busy && s.busy[x] == i;
      assert x in t.busy && t.busy[x] == i;
    }
  }

  lemma RunPrefix(todo: seq<Job>, workers: nat, entries: Entries, states: seq<Pool>)
    requires IsRun(todo, workers, entries, states) && |states| > 1
    ensures IsRun(todo, workers, entries, states[..|states| - 1])
    ensures Step(todo, workers, states[|states| - 2], states[|states| - 1])
  {
    hide Step;
    var before := states[..|states| - 1];
    forall i | 0 <= i < |before| - 1 ensures Step(todo, workers, before[i], before[i + 1]) {
      assert Step(todo, workers, states[i], states[i + 1]);
    }
    assert Step(todo, workers, states[|states| - 2], states[(|states| - 2) + 1]);
  }

  lemma StepKeeps(todo: seq<Job>, workers: nat, entries: Entries, s: Pool, t: Pool)
    requires Inv(todo, workers, entries, s) && Step(todo, workers, s, t)
    ensures Inv(todo, workers, entries, t)
  {
    hide Inv;
    if w: nat :| CanTake(todo, workers, s, w) && t == Taken(s, w) {
      TakeKeeps(todo, workers, entries, s, w);
    } else {
      var w: nat, reply :| CanAnswer(todo, s, w) && t == Answered(todo, s, w, reply);
      AnswerKeeps(todo, workers, entries, s, w, reply);
    }
  }

  /** At every state of every run. */
  lemma {:induction false} RunKeeps(todo: seq<Job>, workers: nat, entries: Entries, states: seq<Pool>)
    requires IsRun(todo, workers, entries, states)
    ensures Inv(todo, workers, entries, states[|states| - 1])
  {
    if |states| > 1 {
      RunPrefix(todo, workers, entries, states);
      hide IsRun, Step;
      var before := states[..|states| - 1];
      assert before[|before| - 1] == states[|states| - 2];
      RunKeeps(todo, workers, entries, before);
      StepKeeps(todo, workers, entries, states[|states| - 2], states[|states| - 1]);
    }
  }

  /** Until everything is handled some worker can move, and every move brings the end nearer. */
  lemma NeverStuck(todo: seq<Job>, workers: nat, entries: Entries, s: Pool)
    requires workers > 0 && Inv(todo, workers, entries, s) && !Finished(todo, s)
    ensures exists t :: Step(todo, workers, s, t)
  {
    if s.busy != map[] {
      assert exists w :: w in s.busy;
      var w :| w in s.busy;
      assert Step(todo, workers, s, Answered(todo, s, w, Failed));
    } else {
      assert CanTake(todo, workers, s, 0);
      assert Step(todo, workers, s, Taken(s, 0));
    }
  }

  function Remaining(todo: seq<Job>, s: Pool): int {
    2 * (|todo| - s.next) + |s.busy|
  }

  lemma MovesRunOut(todo: seq<Job>, workers: nat, s: Pool, w: nat)
    ensures CanTake(todo, workers, s, w) ==> Remaining(todo, Taken(s, w)) < Remaining(todo, s)
    ensures forall reply | CanAnswer(todo, s, w) :: Remaining(todo, Answered(todo, s, w, reply)) < Remaining(todo, s)
  {
    if CanTake(todo, workers, s, w) {
      var t := Taken(s, w);
      assert t.busy.Keys == s.busy.Keys + {w} && |t.busy| == |t.busy.Keys| && |s.busy| == |s.busy.Keys|;
    }
    if CanAnswer(todo, s, w) {
      var busy := s.busy - {w};
      assert busy.Keys == s.busy.Keys - {w} && |busy| == |busy.Keys| && |s.busy| == |s.busy.Keys|;
    }
  }

  lemma StepsRunOut(todo: seq<Job>, workers: nat, s: Pool, t: Pool)
    requires Step(todo, workers, s, t)
    ensures Remaining(todo, t) < Remaining(todo, s)
  {
    hide CanTake, Taken, Answered, Remaining;
    if w: nat :| CanTake(todo, workers, s, w) && t == Taken(s, w) {
      MovesRunOut(todo, workers, s, w);
    } else {
      var w: nat, reply :| CanAnswer(todo, s, w) && t == Answered(todo, s, w, reply);
      MovesRunOut(todo, workers, s, w);
    }
  }

  // ---- When every job has been handled ----

  ghost predicate AnsweredFor(todo: seq<Job>, handled: seq<(nat, Reply)>, ref: string) {
    exists k :: IsAnswer(todo, handled, k, ref)
  }

  predicate IsAnswer(todo: seq<Job>, handled: seq<(nat, Reply)>, k: int, ref: string) {
    0 <= k < |handled| && handled[k].0 < |todo| && todo[handled[k].0].ref == ref && handled[k].1 != Failed
  }

  /** An entry changes only when a job of its reference is answered, and then carries that job's date. */
  lemma {:induction false} WrittenAt(entries: Entries, todo: seq<Job>, handled: seq<(nat, Reply)>, ref: string, rev: string)
    requires forall j | j in todo && j.ref == ref :: j.rev == rev
    ensures var after := AllWritten(entries, todo, handled);
            if AnsweredFor(todo, handled, ref) then ref in after && after[ref].rev == rev
            else (ref in after <==> ref in entries) && (ref in after ==> after[ref] == entries[ref])
  {
    if handled != [] {
      var before, last := handled[..|handled| - 1], |handled| - 1;
      WrittenAt(entries, todo, before, ref, rev);
      if AnsweredFor(todo, before, ref) {
        var k :| IsAnswer(todo, before, k, ref);
        assert IsAnswer(todo, handled, k, ref);
      }
      if k :| IsAnswer(todo, handled, k, ref) {
        if k < last { assert IsAnswer(todo, before, k, ref); }
      }
      assert IsAnswer(todo, handled, last, ref) ==> AnsweredFor(todo, handled, ref);
    }
  }

  /** No reference is listed at two dates. */
  predicate Consistent(listings: seq<Listing>) {
    forall i, j, r, q | 0 <= i < |listings| && 0 <= j < |listings| && r in listings[i].rows && q in listings[j].rows && r.ref == q.ref && r.ref != "" :: r.rev == q.rev
  }

  lemma {:induction false} NoneFailed(handled: seq<(nat, Reply)>)
    ensures CountFailed(handled) == 0 <==> forall k | 0 <= k < |handled| :: handled[k].1 != Failed
  {
    if handled != [] { NoneFailed(handled[..|handled| - 1]); }
  }

  /** A listed advisory is stale afterwards exactly when it was and no job of its reference got an answer. */
  lemma StaleAfter(listings: seq<Listing>, workers: nat, entries: Entries, s: Pool, kind: string, row: Row)
    requires var todo := Todo(listings, entries); Inv(todo, workers, entries, s) && Finished(todo, s)
    requires Consistent(listings) && IsListed(listings, kind, row)
    ensures IsStale(s.entries, row) <==> IsStale(entries, row) && !AnsweredFor(Todo(listings, entries), s.handled, row.ref)
  {
    var todo := Todo(listings, entries);
    hide Todo;
    TodoIsStale(listings, entries);
    if row.ref != "" {
      forall j | j in todo && j.ref == row.ref ensures j.rev == row.rev {
        var i :| 0 <= i < |listings| && listings[i].kind == j.kind && Row(j.ref, j.rev, j.title) in listings[i].rows;
        var k :| 0 <= k < |listings| && listings[k].kind == kind && row in listings[k].rows;
      }
      WrittenAt(entries, todo, s.handled, row.ref, row.rev);
      if AnsweredFor(todo, s.handled, row.ref) {
        assert !IsStale(s.entries, row);
      }
    }
  }

  lemma AllAnswered(todo: seq<Job>, workers: nat, entries: Entries, s: Pool, a: Job)
    requires Inv(todo, workers, entries, s) && Finished(todo, s) && s.failed == 0 && a in todo
    ensures AnsweredFor(todo, s.handled, a.ref)
  {
    NoneFailed(s.handled);
    hide CountFailed, AllWritten;
    var i: nat :| i < |todo| && todo[i] == a;
    assert IsHandled(s, i);
    var k :| 0 <= k < |s.handled| && s.handled[k].0 == i;
    assert IsAnswer(todo, s.handled, k, a.ref);
  }

  /**
   * When the pool is done every job has been handled, exactly once, and advisories that were up to
   * date are untouched. After a run without failure nothing is stale, exactly when the listings are
   * consistent; otherwise the stamp advances over an advisory that stays stale for ever.
   */
  lemma RefreshSettles(listings: seq<Listing>, workers: nat, entries: Entries, s: Pool)
    requires var todo := Todo(listings, entries); Inv(todo, workers, entries, s) && Finished(todo, s)
    ensures forall i: nat | i < |Todo(listings, entries)| :: IsHandled(s, i)
    ensures forall j, k | 0 <= j < k < |s.handled| :: s.handled[j].0 != s.handled[k].0
    ensures forall ref | (forall j | j in Todo(listings, entries) :: j.ref != ref) ::
              (ref in s.entries <==> ref in entries) && (ref in entries ==> s.entries[ref] == entries[ref])
    ensures s.failed == 0 <==> forall k | 0 <= k < |s.handled| :: s.handled[k].1 != Failed
    ensures s.failed == 0 ==> (Todo(listings, s.entries) == [] <==> Consistent(listings))
  {
    var todo := Todo(listings, entries);
    NoneFailed(s.handled);
    hide Todo, CountFailed, AllWritten, Consistent;
    forall i: nat | i < |todo| ensures IsHandled(s, i) {
      assert !InHand(s, i);
    }
    forall ref | (forall j | j in todo :: j.ref != ref)
      ensures (ref in s.entries <==> ref in entries) && (ref in entries ==> s.entries[ref] == entries[ref])
    {
      WrittenAt(entries, todo, s.handled, ref, "");
      forall i: nat | i < |todo| ensures todo[i].ref != ref {
        assert todo[i] in todo;
      }
    }
    if s.failed == 0 && Consistent(listings) {
      SettledWhenConsistent(listings, workers, entries, s);
    }
    if Todo(listings, s.entries) == [] {
      ConsistentWhenSettled(listings, s.entries);
    }
  }

  lemma SettledWhenConsistent(listings: seq<Listing>, workers: nat, entries: Entries, s: Pool)
    requires var todo := Todo(listings, entries); Inv(todo, workers, entries, s) && Finished(todo, s)
    requires s.failed == 0 && Consistent(listings)
    ensures Todo(listings, s.entries) == []
  {
    hide Consistent, Inv;
    TodoIsStale(listings, entries);
    TodoIsStale(listings, s.entries);
    var after := Todo(listings, s.entries);
    if after != [] {
      var j := after[0];
      var row := Row(j.ref, j.rev, j.title);
      assert j in after;
      StaleAfter(listings, workers, entries, s, j.kind, row);
      AllAnswered(Todo(listings, entries), workers, entries, s, j);
      assert false;
    }
  }

  /** Whatever the index holds, a reference listed at two dates is stale at one of them. */
  lemma ConsistentWhenSettled(listings: seq<Listing>, entries: Entries)
    requires Todo(listings, entries) == []
    ensures Consistent(listings)
  {
    forall i, r | 0 <= i < |listings| && r in listings[i].rows ensures !IsStale(entries, r) {
      UpToDate(listings, entries, i, r);
    }
    hide Todo;
    forall i, j, r, q | 0 <= i < |listings| && 0 <= j < |listings| && r in listings[i].rows && q in listings[j].rows && r.ref == q.ref && r.ref != ""
      ensures r.rev == q.rev
    {
      assert !IsStale(entries, r) && !IsStale(entries, q);
    }
  }

  lemma UpToDate(listings: seq<Listing>, entries: Entries, i: nat, r: Row)
    requires Todo(listings, entries) == [] && i < |listings| && r in listings[i].rows
    ensures !IsStale(entries, r)
  {
    TodoIsStale(listings, entries);
    hide Todo, IsStale;
    assert IsListed(listings, listings[i].kind, r);
    assert Job(listings[i].kind, r.ref, r.rev, r.title) !in Todo(listings, entries);
  }

  // ---- The same pool as the code keeps it ----

  class Refresher {
    const todo: seq<Job>
    var next: nat
    var done: nat
    var failed: nat
    var entries: Entries
    var fetchedAt: nat
    ghost const workers: nat
    ghost const before: Entries
    ghost var busy: map<nat, nat>
    ghost var handled: seq<(nat, Reply)>

    ghost function View(): Pool
      reads this
    {
      Pool(next, busy, handled, done, failed, entries)
    }

    ghost predicate Valid()
      reads this
    {
      Inv(todo, workers, before, View())
    }

    constructor (listings: seq<Listing>, entries: Entries, fetchedAt: nat, ghost workers: nat)
      ensures todo == Todo(listings, entries) && View() == Initial(entries) && before == entries
      ensures Valid() && this.fetchedAt == fetchedAt && this.workers == workers
    {
      todo, next, done, failed, this.entries, this.fetchedAt := Todo(listings, entries), 0, 0, 0, entries, fetchedAt;
      this.workers, before, busy, handled := workers, entries, map[], [];
    }

    /** A worker that is free takes the next job. */
    method Take(ghost w: nat) returns (a: Job)
      requires Valid() && CanTake(todo, workers, View(), w)
      modifies this`next, this`busy
      ensures Valid() && View() == Taken(old(View()), w) && a == todo[old(next)]
    {
      hide Inv;
      TakeKeeps(todo, workers, before, View(), w);
      a := todo[next];
      busy := busy[w := next];
      next := next + 1;
    }

    lemma JobInRange(w: nat)
      requires CanAnswer(todo, View(), w)
      ensures w in busy && busy[w] < |todo|
    {
    }

    /** Its reply comes in. */
    method Answer(ghost w: nat, a: Job, reply: Reply)
      requires Valid() && CanAnswer(todo, View(), w) && a == todo[busy[w]]
      modifies this`busy, this`handled, this`done, this`failed, this`entries
      ensures Valid() && View() == Answered(todo, old(View()), w, reply)
    {
      hide Inv, CanAnswer;
      AnswerKeeps(todo, workers, before, View(), w, reply);
      JobInRange(w);
      if reply == Failed {
        failed := failed + 1;
      } else {
        entries := entries[a.ref := Entry(a.kind, a.rev, a.title, if reply.Found? then reply.cves else [])];
      }
      assert entries == Written(old(entries), a, reply);
      done := done + 1;
      handled := handled + [(busy[w], reply)];
      busy := busy - {w};
    }

    /** The stamp advances only when nothing failed; the references now at their listed date are reported, in the order of the jobs. */
    method Finish(now: nat) returns (changed: seq<string>)
      requires Valid() && Finished(todo, View())
      modifies this`fetchedAt
      ensures fetchedAt == if forall k | 0 <= k < |handled| :: handled[k].1 != Failed then now else old(fetchedAt)
      ensures |changed| == |AtDate(todo, entries)| && forall k | 0 <= k < |changed| :: changed[k] == AtDate(todo, entries)[k].ref
      ensures forall ref :: ref in changed <==> exists j :: j in todo && j.ref == ref && ref in entries && entries[ref].rev == j.rev
    {
      NoneFailed(handled);
      if failed == 0 { fetchedAt := now; }
      changed := [];
      for i := 0 to |todo|
        invariant fetchedAt == if failed == 0 then now else old(fetchedAt)
        invariant |changed| == |AtDate(todo[..i], entries)|
        invariant forall k | 0 <= k < |changed| :: changed[k] == AtDate(todo[..i], entries)[k].ref
      {
        AtDateSnoc(todo, i, entries);
        if todo[i].ref in entries && entries[todo[i].ref].rev == todo[i].rev { changed := changed + [todo[i].ref]; }
      }
      assert todo[..|todo|] == todo;
      AtDateRefs(todo, entries, changed);
    }
  }

  predicate IsAtDate(entries: Entries, j: Job) {
    j.ref in entries && entries[j.ref].rev == j.rev
  }

  /** The jobs whose reference is at its listed date. */
  function AtDate(todo: seq<Job>, entries: Entries): seq<Job> {
    Filter((j: Job) => IsAtDate(entries, j), todo)
  }

  lemma AtDateSnoc(todo: seq<Job>, i: nat, entries: Entries)
    requires i < |todo|
    ensures AtDate(todo[..i + 1], entries) == AtDate(todo[..i], entries) + if IsAtDate(entries, todo[i]) then [todo[i]] else []
  {
    assert todo[..i + 1] == todo[..i] + [todo[i]];
    FilterInOrder((j: Job) => IsAtDate(entries, j), todo[..i], [todo[i]]);
  }

  lemma AtDateRefs(todo: seq<Job>, entries: Entries, changed: seq<string>)
    requires |changed| == |AtDate(todo, entries)| && forall k | 0 <= k < |changed| :: changed[k] == AtDate(todo, entries)[k].ref
    ensures forall ref :: ref in changed <==> exists j :: j in todo && j.ref == ref && ref in entries && entries[ref].rev == j.rev
  {
    var kept := AtDate(todo, entries);
    forall ref ensures ref in changed <==> exists j :: j in todo && j.ref == ref && ref in entries && entries[ref].rev == j.rev {
      if ref in changed {
        var k :| 0 <= k < |changed| && changed[k] == ref;
        assert kept[k] in kept;
      }
      if j :| j in todo && j.ref == ref && ref in entries && entries[ref].rev == j.rev {
        assert j in kept;
        var k :| 0 <= k < |kept| && kept[k] == j;
        assert changed[k] == ref;
      }
    }
  }

  // ---- From advisories to CVEs ----

  datatype Citation = Citation(ref: string, kind: string, title: string)

  type Index = map<string, seq<Citation>>

  function CitationOf(p: (string, Entry)): Citation {
    Citation(p.0, p.1.kind, p.1.title)
  }

  function Pushed(index: Index, cve: string, c: Citation): Index {
    index[cve := (if cve in index then index[cve] else []) + [c]]
  }

  function PushedAll(index: Index, cves: seq<string>, c: Citation): Index {
    if cves == [] then index else Pushed(PushedAll(index, cves[..|cves| - 1], c), cves[|cves| - 1], c)
  }

  /** How often an advisory cites a CVE, in entry order. */
  function Citing(entries: seq<(string, Entry)>, cve: string): seq<Citation> {
    if entries == [] then []
    else Citing(entries[..|entries| - 1], cve) + Times(entries[|entries| - 1].1.cves, cve, CitationOf(entries[|entries| - 1]))
  }

  function Times(cves: seq<string>, cve: string, c: Citation): seq<Citation> {
    if cves == [] then [] else Times(cves[..|cves| - 1], cve, c) + if cves[|cves| - 1] == cve then [c] else []
  }

  function Cites(index: Index, cve: string): seq<Citation> {
    if cve in index then index[cve] else []
  }

  lemma {:induction false} PushedAllCites(index: Index, cves: seq<string>, c: Citation, cve: string)
    ensures Cites(PushedAll(index, cves, c), cve) == Cites(index, cve) + Times(cves, cve, c)
    ensures cve in PushedAll(index, cves, c) <==> cve in index || cve in cves
  {
    if cves == [] {
      assert Cites(index, cve) + [] == Cites(index, cve);
    } else {
      PushedAllCites(index, cves[..|cves| - 1], c, cve);
      assert cves == cves[..|cves| - 1] + [cves[|cves| - 1]];
    }
  }

  method IndexByCve(newest: (Citation, Citation) -> int, entries: seq<(string, Entry)>) returns (byCve: Index)
    ensures forall cve :: cve in byCve <==> Citing(entries, cve) != []
    ensures forall cve | cve in byCve :: byCve[cve] == SortBy(newest, Citing(entries, cve))
  {
    var index: Index := map[];
    for i := 0 to |entries|
      invariant forall cve :: Cites(index, cve) == Citing(entries[..i], cve)
      invariant forall cve :: cve in index ==> index[cve] != []
    {
      ghost var before := index;
      assert entries[..i + 1][..i] == entries[..i];
      var cves, c := entries[i].1.cves, CitationOf(entries[i]);
      for k := 0 to |cves|
        invariant index == PushedAll(before, cves[..k], c)
        invariant forall cve :: cve in index ==> index[cve] != []
      {
        assert cves[..k + 1][..k] == cves[..k];
        index := index[cves[k] := (if cves[k] in index then index[cves[k]] else []) + [c]];
      }
      assert cves[..|cves|] == cves;
      forall cve ensures Cites(index, cve) == Citing(entries[..i + 1], cve) {
        PushedAllCites(before, cves, c, cve);
      }
    }
    assert entries[..|entries|] == entries;
    byCve := map cve | cve in index :: SortBy(newest, index[cve]);
  }

  lemma {:induction false} TimesHas(cves: seq<string>, cve: string, c: Citation)
    ensures forall x :: x in Times(cves, cve, c) <==> x == c && cve in cves
    ensures cve !in cves ==> Times(cves, cve, c) == []
    ensures Distinct(cves) ==> |Times(cves, cve, c)| <= 1
  {
    if cves != [] {
      TimesHas(cves[..|cves| - 1], cve, c);
      assert cves == cves[..|cves| - 1] + [cves[|cves| - 1]];
      if Distinct(cves) && cves[|cves| - 1] == cve {
        assert cve !in cves[..|cves| - 1];
      }
    }
  }

  /** The citation says of one of the entries what it is, and the entry cites the CVE. */
  ghost predicate IsCitation(entries: seq<(string, Entry)>, cve: string, c: Citation) {
    exists p :: p in entries && cve in p.1.cves && c.ref == p.0 && c.kind == p.1.kind && c.title == p.1.title
  }

  /** The index inverts the entries: a CVE's list holds exactly the advisories citing it, each once. */
  lemma {:induction false} CitingIsInverse(entries: seq<(string, Entry)>, cve: string)
    requires forall i, j | 0 <= i < j < |entries| :: entries[i].0 != entries[j].0
    requires forall i | 0 <= i < |entries| :: Distinct(entries[i].1.cves)
    ensures forall c :: c in Citing(entries, cve) <==> IsCitation(entries, cve, c)
    ensures forall i, j | 0 <= i < j < |Citing(entries, cve)| :: Citing(entries, cve)[i].ref != Citing(entries, cve)[j].ref
  {
    hide IsCitation, Times;
    if entries == [] {
      NoCitation(cve);
    } else {
      var most, last := entries[..|entries| - 1], entries[|entries| - 1];
      CitingIsInverse(most, cve);
      TimesHas(last.1.cves, cve, CitationOf(last));
      MoreCitations(entries, cve);
      var cs, t := Citing(most, cve), Times(last.1.cves, cve, CitationOf(last));
      forall i | 0 <= i < |cs| ensures cs[i].ref != last.0 { assert cs[i] in cs && IsCitation(most, cve, cs[i]); }
      if t != [] { assert t[0] in t; }
    }
  }

  lemma NoCitation(cve: string)
    ensures forall c :: !IsCitation([], cve, c)
  {
  }

  lemma MoreCitations(entries: seq<(string, Entry)>, cve: string)
    requires entries != [] && forall i, j | 0 <= i < j < |entries| :: entries[i].0 != entries[j].0
    ensures var most, last := entries[..|entries| - 1], entries[|entries| - 1];
            && (forall c :: IsCitation(entries, cve, c) <==> IsCitation(most, cve, c) || (cve in last.1.cves && c == CitationOf(last)))
            && (forall c | IsCitation(most, cve, c) :: c.ref != last.0)
  {
    var most, last := entries[..|entries| - 1], entries[|entries| - 1];
    assert entries == most + [last];
    assert forall p :: p in entries <==> p in most || p == last;
    forall p | p in most ensures p.0 != last.0 {
      var k :| 0 <= k < |most| && most[k] == p;
      assert entries[k].0 != entries[|entries| - 1].0;
    }
  }
}
