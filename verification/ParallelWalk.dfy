/**
 * lib/parallel-walk.js: the bounded-concurrency directory walk, under every interleaving.
 *
 * A directory is the list of names that leads to it from the root. One read goes through two
 * events: its entries arrive (`Deliver`), then its `finally` callback runs (`Complete`); events
 * of different reads interleave freely. A directory missing from the listing is unreadable.
 */
module ParallelWalk {
  import opened Basics

  type Dir = seq<string>

  datatype Entry = Entry(name: string, isDirectory: bool)

  datatype FileSystem = FileSystem(listing: map<Dir, seq<Entry>>, skipDir: (Dir, string) -> bool)

  ghost predicate WellFormed(fs: FileSystem) {
    forall d, i, j | d in fs.listing && 0 <= i < j < |fs.listing[d]| :: fs.listing[d][i].name != fs.listing[d][j].name
  }

  predicate Followed(fs: FileSystem, d: Dir, e: Entry) {
    e.isDirectory && !fs.skipDir(d + [e.name], e.name)
  }

  function FollowedIn(fs: FileSystem, d: Dir, entries: seq<Entry>): seq<Dir> {
    if entries == [] then []
    else
      var rest := FollowedIn(fs, d, entries[..|entries| - 1]);
      var e := entries[|entries| - 1];
      if Followed(fs, d, e) then rest + [d + [e.name]] else rest
  }

  /** The subdirectories a read of `d` queues, in listing order. */
  function Kids(fs: FileSystem, d: Dir): seq<Dir> {
    if d in fs.listing then FollowedIn(fs, d, fs.listing[d]) else []
  }

  function Parent(d: Dir): Dir
    requires d != []
  {
    d[..|d| - 1]
  }

  predicate Reachable(fs: FileSystem, d: Dir)
    decreases |d|
  {
    d == [] || (Reachable(fs, Parent(d)) && d in Kids(fs, Parent(d)))
  }

  // ---- The walk as a transition system ----

  /** Reads are numbered in the order they start; `started[i]` is what read `i` reads. */
  datatype Walk = Walk(
    queue: seq<Dir>,
    started: seq<Dir>,
    reading: set<nat>,
    delivered: set<nat>,
    visited: seq<Dir>,
    settled: bool,
    resolves: nat)

  function Active(s: Walk): nat {
    |s.reading| + |s.delivered|
  }

  function Fill(s: Walk, concurrency: nat): Walk
    decreases |s.queue|
  {
    if Active(s) < concurrency && s.queue != [] then
      var last := |s.queue| - 1;
      Fill(s.(queue := s.queue[..last], started := s.started + [s.queue[last]], reading := s.reading + {|s.started|}), concurrency)
    else s
  }

  function Pump(s: Walk, concurrency: nat): Walk {
    if s.settled then s
    else if s.queue == [] && Active(s) == 0 then s.(settled := true, resolves := s.resolves + 1)
    else Fill(s, concurrency)
  }

  lemma PumpCases(s: Walk, concurrency: nat)
    ensures Pump(s, concurrency) ==
            if s.settled then s
            else if s.queue == [] && Active(s) == 0 then s.(settled := true, resolves := s.resolves + 1)
            else Fill(s, concurrency)
  {
  }

  lemma FillStep(s: Walk, t: Walk, concurrency: nat)
    requires Active(s) < concurrency && s.queue != []
    requires var last := |s.queue| - 1;
             t == s.(queue := s.queue[..last], started := s.started + [s.queue[last]], reading := s.reading + {|s.started|})
    ensures Fill(s, concurrency) == Fill(t, concurrency)
  {
  }

  lemma FillEnds(s: Walk, concurrency: nat)
    requires Active(s) >= concurrency || s.queue == []
    ensures Fill(s, concurrency) == s
  {
  }

  function Initial(concurrency: nat): Walk {
    Pump(Walk([[]], [], {}, {}, [], false, 0), concurrency)
  }

  function Deliver(fs: FileSystem, s: Walk, i: nat): Walk
    requires i in s.reading && i < |s.started|
  {
    var d := s.started[i];
    s.(queue := s.queue + Kids(fs, d), reading := s.reading - {i}, delivered := s.delivered + {i},
       visited := if d in fs.listing then s.visited + [d] else s.visited)
  }

  function Complete(s: Walk, i: nat, concurrency: nat): Walk
    requires i in s.delivered
  {
    Pump(s.(delivered := s.delivered - {i}), concurrency)
  }

  ghost predicate Next(fs: FileSystem, concurrency: nat, s: Walk, t: Walk) {
    || (exists i :: i in s.reading && i < |s.started| && t == Deliver(fs, s, i))
    || (exists i :: i in s.delivered && t == Complete(s, i, concurrency))
  }

  ghost predicate IsRun(fs: FileSystem, concurrency: nat, run: seq<Walk>) {
    && run != [] && run[0] == Initial(concurrency)
    && forall k | 0 < k < |run| :: Next(fs, concurrency, run[k - 1], run[k])
  }

  // ---- What every reachable state satisfies ----

  /** Directories known to the walk: queued or already started. */
  function Known(s: Walk): seq<Dir> {
    s.started + s.queue
  }

  /** Directories whose read came back. */
  function Expanded(s: Walk): set<Dir> {
    set i | 0 <= i < |s.started| && i !in s.reading :: s.started[i]
  }

  ghost predicate Booked(s: Walk) {
    s.reading !! s.delivered && forall i | i in s.reading || i in s.delivered :: i < |s.started|
  }

  ghost predicate Rooted(fs: FileSystem, s: Walk) {
    && [] in Known(s)
    && forall d | d in Known(s) :: Reachable(fs, d) && (d != [] ==> Parent(d) in Expanded(s))
  }

  ghost predicate Closed(fs: FileSystem, s: Walk) {
    forall d, k | d in Expanded(s) && k in Kids(fs, d) :: k in Known(s)
  }

  ghost predicate VisitedOnce(fs: FileSystem, s: Walk) {
    Distinct(s.visited) && forall d :: d in s.visited <==> d in fs.listing && d in Expanded(s)
  }

  ghost predicate Inv(fs: FileSystem, concurrency: nat, s: Walk) {
    && Booked(s) && Distinct(Known(s)) && Rooted(fs, s) && Closed(fs, s) && VisitedOnce(fs, s)
    && Active(s) <= concurrency
    && s.resolves == (if s.settled then 1 else 0)
    && (s.settled ==> s.queue == [] && Active(s) == 0)
  }

  lemma {:induction false} FillKeeps(fs: FileSystem, concurrency: nat, s: Walk)
    requires Inv(fs, concurrency, s) && !s.settled
    ensures Inv(fs, concurrency, Fill(s, concurrency))
    ensures Fill(s, concurrency).queue != [] ==> Active(Fill(s, concurrency)) >= concurrency
    ensures Active(Fill(s, concurrency)) >= Active(s)
    ensures s.queue != [] && concurrency > 0 ==> Active(Fill(s, concurrency)) > 0
    ensures |Known(Fill(s, concurrency))| == |Known(s)|
    ensures |Fill(s, concurrency).started| - Active(Fill(s, concurrency)) == |s.started| - Active(s)
    ensures Fill(s, concurrency).delivered == s.delivered && !Fill(s, concurrency).settled
    decreases |s.queue|
  {
    if Active(s) < concurrency && s.queue != [] {
      var last := |s.queue| - 1;
      var t := s.(queue := s.queue[..last], started := s.started + [s.queue[last]], reading := s.reading + {|s.started|});
      StartKeeps(fs, concurrency, s, t);
      FillKeeps(fs, concurrency, t);
    }
  }

  lemma StartKeeps(fs: FileSystem, concurrency: nat, s: Walk, t: Walk)
    requires Inv(fs, concurrency, s) && !s.settled && Active(s) < concurrency && s.queue != []
    requires var last := |s.queue| - 1;
             t == s.(queue := s.queue[..last], started := s.started + [s.queue[last]], reading := s.reading + {|s.started|})
    ensures Inv(fs, concurrency, t) && Active(t) == Active(s) + 1
  {
    assert Expanded(t) == Expanded(s) by {
      forall d | d in Expanded(s) ensures d in Expanded(t) {
        var i :| 0 <= i < |s.started| && i !in s.reading && d == s.started[i];
        assert t.started[i] == d;
      }
    }
    forall d ensures d in Known(s) <==> d in Known(t) {
      SameElements(s.started, s.queue, d);
    }
    StartDistinct(s.started, s.queue);
  }

  lemma SameElements(started: seq<Dir>, queue: seq<Dir>, d: Dir)
    requires queue != []
    ensures d in started + queue <==> d in started + [queue[|queue| - 1]] + queue[..|queue| - 1]
  {
    assert queue == queue[..|queue| - 1] + [queue[|queue| - 1]];
  }

  lemma StartDistinct(started: seq<Dir>, queue: seq<Dir>)
    requires queue != [] && Distinct(started + queue)
    ensures Distinct(started + [queue[|queue| - 1]] + queue[..|queue| - 1])
  {
    var k, n := started + queue, |started|;
    var t := started + [queue[|queue| - 1]] + queue[..|queue| - 1];
    forall i, j | 0 <= i < j < |t|
      ensures t[i] != t[j]
    {
      var i' := if i < n then i else if i == n then |k| - 1 else i - 1;
      var j' := if j < n then j else if j == n then |k| - 1 else j - 1;
      assert t[i] == k[i'] && t[j] == k[j'];
    }
  }

  lemma PumpKeeps(fs: FileSystem, concurrency: nat, s: Walk)
    requires Inv(fs, concurrency, s)
    ensures var t := Pump(s, concurrency);
            && Inv(fs, concurrency, t)
            && (concurrency > 0 ==> t.settled || Active(t) > 0)
            && Work(t) == Work(s)
  {
    if !s.settled && (s.queue != [] || Active(s) > 0) { FillKeeps(fs, concurrency, s); }
  }

  /** Twice the reads started, less the events those reads still owe. */
  function Work(s: Walk): int {
    2 * |s.started| - 2 * |s.reading| - |s.delivered|
  }

  // ---- Queued directories are new ----

  lemma {:induction false} FollowedInHas(fs: FileSystem, d: Dir, entries: seq<Entry>, k: Dir)
    ensures k in FollowedIn(fs, d, entries) <==>
            exists i :: 0 <= i < |entries| && Followed(fs, d, entries[i]) && k == d + [entries[i].name]
  {
    if entries != [] {
      var last := |entries| - 1;
      FollowedInHas(fs, d, entries[..last], k);
      if exists i :: 0 <= i < last && Followed(fs, d, entries[i]) && k == d + [entries[i].name] {
        var i :| 0 <= i < last && Followed(fs, d, entries[i]) && k == d + [entries[i].name];
        assert entries[..last][i] == entries[i];
      }
    }
  }

  lemma {:induction false} FollowedInDistinct(fs: FileSystem, d: Dir, entries: seq<Entry>)
    requires forall i, j | 0 <= i < j < |entries| :: entries[i].name != entries[j].name
    ensures Distinct(FollowedIn(fs, d, entries))
  {
    if entries != [] {
      var last := |entries| - 1;
      FollowedInDistinct(fs, d, entries[..last]);
      FollowedInHas(fs, d, entries[..last], d + [entries[last].name]);
      forall i | 0 <= i < last ensures d + [entries[i].name] != d + [entries[last].name] {
        assert (d + [entries[i].name])[|d|] != (d + [entries[last].name])[|d|];
      }
    }
  }

  lemma NotYetExpanded(s: Walk, i: nat)
    requires Distinct(Known(s)) && i in s.reading && i < |s.started|
    ensures s.started[i] !in Expanded(s)
  {
    forall j | 0 <= j < |s.started| && j != i
      ensures s.started[j] != s.started[i]
    {
      assert Known(s)[i] == s.started[i] && Known(s)[j] == s.started[j];
    }
  }

  lemma KidsAreNew(fs: FileSystem, concurrency: nat, s: Walk, i: nat)
    requires WellFormed(fs) && Inv(fs, concurrency, s) && i in s.reading && i < |s.started|
    ensures var kids := Kids(fs, s.started[i]);
            && Distinct(kids)
            && forall k | k in kids :: k !in Known(s) && k != [] && Parent(k) == s.started[i] && Reachable(fs, k)
  {
    var d := s.started[i];
    NotYetExpanded(s, i);
    assert Known(s)[i] == d;
    if d in fs.listing {
      FollowedInDistinct(fs, d, fs.listing[d]);
      forall k | k in Kids(fs, d)
        ensures k !in Known(s) && k != [] && Parent(k) == d && Reachable(fs, k)
      {
        FollowedInHas(fs, d, fs.listing[d], k);
      }
    }
  }

  lemma DeliverKeeps(fs: FileSystem, concurrency: nat, s: Walk, i: nat)
    requires WellFormed(fs) && Inv(fs, concurrency, s) && i in s.reading && i < |s.started|
    ensures Inv(fs, concurrency, Deliver(fs, s, i))
    ensures Active(Deliver(fs, s, i)) == Active(s) && Work(Deliver(fs, s, i)) == Work(s) + 1
  {
    var t, d := Deliver(fs, s, i), s.started[i];
    KidsAreNew(fs, concurrency, s, i);
    assert Expanded(t) == Expanded(s) + {d};
    assert Known(t) == Known(s) + Kids(fs, d);
    NotYetExpanded(s, i);
    DistinctConcat(Known(s), Kids(fs, d));
  }

  lemma CompleteKeeps(fs: FileSystem, concurrency: nat, s: Walk, i: nat)
    requires Inv(fs, concurrency, s) && i in s.delivered
    ensures var t := Complete(s, i, concurrency);
            && Inv(fs, concurrency, t)
            && (concurrency > 0 ==> t.settled || Active(t) > 0)
            && Work(t) == Work(s) + 1
  {
    var u := s.(delivered := s.delivered - {i});
    assert Expanded(u) == Expanded(s);
    assert Inv(fs, concurrency, u) by { assert !s.settled; }
    PumpKeeps(fs, concurrency, u);
  }

  lemma InitialKeeps(fs: FileSystem, concurrency: nat)
    ensures Inv(fs, concurrency, Initial(concurrency)) && Work(Initial(concurrency)) == 0
    ensures concurrency > 0 ==> Active(Initial(concurrency)) > 0
  {
    var s := Walk([[]], [], {}, {}, [], false, 0);
    assert Inv(fs, concurrency, s);
    FillKeeps(fs, concurrency, s);
  }

  // ---- All runs ----

  lemma {:induction false} RunKeeps(fs: FileSystem, concurrency: nat, run: seq<Walk>)
    requires WellFormed(fs) && IsRun(fs, concurrency, run)
    ensures var s := run[|run| - 1];
            && Inv(fs, concurrency, s)
            && (concurrency > 0 ==> s.settled || Active(s) > 0)
            && Work(s) == |run| - 1
  {
    if |run| == 1 {
      InitialKeeps(fs, concurrency);
    } else {
      var before := run[..|run| - 1];
      RunKeeps(fs, concurrency, before);
      var s, t := run[|run| - 2], run[|run| - 1];
      assert Next(fs, concurrency, s, t);
      if i :| i in s.reading && i < |s.started| && t == Deliver(fs, s, i) {
        DeliverKeeps(fs, concurrency, s, i);
      } else {
        var i :| i in s.delivered && t == Complete(s, i, concurrency);
        CompleteKeeps(fs, concurrency, s, i);
      }
    }
  }

  /** The root and every directory some listing names: a bound on what can be reached. */
  function Universe(fs: FileSystem): set<Dir> {
    {[]} + set d, i | d in fs.listing && 0 <= i < |fs.listing[d]| :: d + [fs.listing[d][i].name]
  }

  lemma ReachableInUniverse(fs: FileSystem, d: Dir)
    requires Reachable(fs, d)
    ensures d in Universe(fs)
  {
    if d != [] {
      FollowedInHas(fs, Parent(d), fs.listing[Parent(d)], d);
    }
  }

  lemma {:induction false} ReachableIsStarted(fs: FileSystem, concurrency: nat, s: Walk, d: Dir)
    requires Inv(fs, concurrency, s) && s.settled && Reachable(fs, d)
    ensures d in s.started && d in Expanded(s)
    decreases |d|
  {
    assert Known(s) == s.started && s.reading == {};
    if d != [] {
      ReachableIsStarted(fs, concurrency, s, Parent(d));
    }
  }

  /** Exactly the reachable directories, each read once and handed to the visitor once. */
  ghost predicate VisitsAllOnce(fs: FileSystem, s: Walk) {
    && Distinct(s.started) && (forall d :: d in s.started <==> Reachable(fs, d))
    && Distinct(s.visited) && (forall d :: d in s.visited <==> Reachable(fs, d) && d in fs.listing)
  }

  /** Whatever the order of completions: bounded, finite, and complete once resolved. */
  lemma EveryRunIsCorrect(fs: FileSystem, concurrency: nat, run: seq<Walk>)
    requires WellFormed(fs) && IsRun(fs, concurrency, run)
    ensures var s := run[|run| - 1];
            && Active(s) <= concurrency
            && Distinct(s.started) && (forall d | d in s.started :: Reachable(fs, d))
            && |run| - 1 <= 2 * |s.started| <= 2 * |Universe(fs)|
            && (s.settled ==> VisitsAllOnce(fs, s) && |run| - 1 == 2 * |s.started|)
  {
    var s := run[|run| - 1];
    RunKeeps(fs, concurrency, run);
    assert Distinct(s.started) by {
      forall i, j | 0 <= i < j < |s.started| ensures s.started[i] != s.started[j] {
        assert Known(s)[i] != Known(s)[j];
      }
    }
    forall d | d in s.started ensures Reachable(fs, d) && d in Universe(fs) {
      assert d in Known(s);
      ReachableInUniverse(fs, d);
    }
    DistinctFits(s.started, Universe(fs));
    if s.settled {
      forall d | Reachable(fs, d) ensures d in s.started && d in Expanded(s) {
        ReachableIsStarted(fs, concurrency, s, d);
      }
    }
  }

  /** The promise resolves at most once, and only when the walk is idle; nothing follows it. */
  lemma ResolvesOnceWhenIdle(fs: FileSystem, concurrency: nat, run: seq<Walk>, k: nat)
    requires WellFormed(fs) && IsRun(fs, concurrency, run) && k < |run|
    ensures run[k].resolves <= 1
    ensures run[k].resolves == 1 ==> run[k].queue == [] && Active(run[k]) == 0 && k == |run| - 1
  {
    RunKeeps(fs, concurrency, run[..k + 1]);
    if k + 1 < |run| {
      assert Next(fs, concurrency, run[(k + 1) - 1], run[k + 1]);
    }
  }

  ghost predicate CanStep(fs: FileSystem, concurrency: nat, s: Walk) {
    exists t :: Next(fs, concurrency, s, t)
  }

  /** The walk never hangs before resolving exactly when its concurrency is at least one. */
  lemma NeverStuckIffConcurrent(fs: FileSystem, concurrency: nat)
    requires WellFormed(fs)
    ensures concurrency > 0 <==>
            forall run: seq<Walk> | IsRun(fs, concurrency, run) :: run[|run| - 1].settled || CanStep(fs, concurrency, run[|run| - 1])
  {
    if concurrency > 0 {
      forall run: seq<Walk> | IsRun(fs, concurrency, run)
        ensures run[|run| - 1].settled || CanStep(fs, concurrency, run[|run| - 1])
      {
        var s := run[|run| - 1];
        RunKeeps(fs, concurrency, run);
        if i :| i in s.reading {
          assert Next(fs, concurrency, s, Deliver(fs, s, i));
        } else if i :| i in s.delivered {
          assert Next(fs, concurrency, s, Complete(s, i, concurrency));
        }
      }
    } else {
      var run := [Initial(0)];
      assert IsRun(fs, 0, run);
      assert run[0] == Walk([[]], [], {}, {}, [], false, 0);
      assert !CanStep(fs, 0, run[|run| - 1]);
    }
  }

  // ---- The walker itself ----

  class Walker {
    const fs: FileSystem
    const concurrency: nat
    var queue: seq<Dir>
    var active: nat
    var settled: bool
    ghost var walk: Walk

    ghost predicate Valid()
      reads this
    {
      && Inv(fs, concurrency, walk)
      && queue == walk.queue && active == Active(walk) && settled == walk.settled
    }

    /** Everything up to the first pump; `walkDirs` returns once `settled` is set. */
    constructor (fs: FileSystem, concurrency: nat)
      ensures this.fs == fs && this.concurrency == concurrency
      ensures Valid() && walk == Initial(concurrency)
    {
      this.fs, this.concurrency := fs, concurrency;
      queue, active, settled := [[]], 0, false;
      walk := Walk([[]], [], {}, {}, [], false, 0);
      new;
      assert Inv(fs, concurrency, walk);
      DoPump();
    }

    method DoPump()
      requires Valid()
      modifies this
      ensures Valid() && walk == Pump(old(walk), concurrency)
    {
      hide Inv, Fill, Pump;
      PumpCases(walk, concurrency);
      PumpKeeps(fs, concurrency, walk);
      if settled { return; }
      if |queue| == 0 && active == 0 {
        settled := true;
        walk := walk.(settled := true, resolves := walk.resolves + 1);
        return;
      }
      while active < concurrency && |queue| != 0
        invariant Valid() && !settled
        invariant Fill(walk, concurrency) == Fill(old(walk), concurrency)
        decreases |queue|
      {
        var cur := queue[|queue| - 1];
        ghost var was := walk;
        queue := queue[..|queue| - 1];
        active := active + 1;
        walk := walk.(queue := queue, started := walk.started + [cur], reading := walk.reading + {|walk.started|});
        StartKeeps(fs, concurrency, was, walk);
        FillStep(was, walk, concurrency);
      }
      FillEnds(walk, concurrency);
    }

    /** The entries of read `i`, of directory `cur`, arrive. */
    method OnEntries(cur: Dir, ghost i: nat)
      requires Valid() && WellFormed(fs)
      requires i in walk.reading && i < |walk.started| && walk.started[i] == cur
      modifies this
      ensures Valid() && walk == Deliver(fs, old(walk), i)
    {
      ghost var was := walk;
      DeliverKeeps(fs, concurrency, walk, i);
      walk := Deliver(fs, walk, i);
      if cur in fs.listing {
        var entries := fs.listing[cur];
        for k := 0 to |entries|
          invariant queue == was.queue + FollowedIn(fs, cur, entries[..k])
          invariant active == Active(walk) && settled == walk.settled && walk == Deliver(fs, was, i)
        {
          assert entries[..k + 1][..k] == entries[..k];
          var e := entries[k];
          if e.isDirectory {
            var child := cur + [e.name];
            if !fs.skipDir(child, e.name) { queue := queue + [child]; }
          }
        }
        assert entries[..|entries|] == entries;
      }
    }

    /** The `finally` callback of read `i`. */
    method OnFinally(ghost i: nat)
      requires Valid() && i in walk.delivered
      modifies this
      ensures Valid() && walk == Complete(old(walk), i, concurrency)
    {
      ghost var was := walk;
      active := active - 1;
      walk := walk.(delivered := walk.delivered - {i});
      assert Expanded(walk) == Expanded(was);
      assert !was.settled;
      DoPump();
    }
  }
}
