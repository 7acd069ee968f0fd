/**
 * lib/application-inventory.js:79-101: the breadth-first walk over the `requires` edges of one
 * Composer lock file, starting at the package an owner is installed as.
 */
module RequireWalk {
  import opened Basics

  /** One Composer package in one manifest; `coord` is already lower case, `needs` (its `requires`) is not. */
  datatype Item = Item(coord: string, depKey: string, version: string, manifest: string, relManifest: string, needs: seq<string>)

  type Graph = map<string, Item>

  datatype Visit = Visit(item: Item, chain: seq<string>)

  const MAX_LINKS := 20
  const MAX_VISITS := 1000

  /** The packages of one manifest by coordinate; the last of two with the same one wins. */
  function ByCoord(items: seq<Item>): (g: Graph)
    ensures forall c | c in g :: g[c] in items && g[c].coord == c
    ensures forall item | item in items :: item.coord in g
  {
    if items == [] then map[] else ByCoord(items[..|items| - 1])[items[|items| - 1].coord := items[|items| - 1]]
  }

  predicate Requires(lower: string -> string, item: Item, c: string) {
    exists i :: 0 <= i < |item.needs| && lower(item.needs[i]) == c
  }

  predicate Edge(lower: string -> string, g: Graph, a: string, b: string) {
    a in g && b in g && Requires(lower, g[a], b)
  }

  /** A chain of require edges inside the manifest. */
  predicate IsChain(lower: string -> string, g: Graph, start: string, chain: seq<string>) {
    && chain != [] && chain[0] == start && start in g
    && forall i :: 0 <= i < |chain| - 1 ==> Edge(lower, g, chain[i], chain[i + 1])
  }

  function Last(chain: seq<string>): string
    requires chain != []
  {
    chain[|chain| - 1]
  }

  /** A chain to `c` than which no other is shorter. */
  ghost predicate IsShortest(lower: string -> string, g: Graph, start: string, chain: seq<string>) {
    && IsChain(lower, g, start, chain)
    && forall other | IsChain(lower, g, start, other) && Last(other) == Last(chain) :: |chain| <= |other|
  }

  predicate Visited(visits: seq<Visit>, c: string) {
    exists i :: 0 <= i < |visits| && visits[i].item.coord == c
  }

  /** An entry waiting at `c` whose chain is at most `len` long. */
  predicate Queued(queue: seq<Visit>, c: string, len: int) {
    exists i :: 0 <= i < |queue| && queue[i].item.coord == c && |queue[i].chain| <= len
  }

  predicate IsEntry(lower: string -> string, g: Graph, start: string, v: Visit) {
    && IsChain(lower, g, start, v.chain) && |v.chain| <= MAX_LINKS
    && Last(v.chain) == v.item.coord && v.item.coord in g && g[v.item.coord] == v.item
  }

  /** The queue is in order of length, one link apart at most. */
  predicate Layered(queue: seq<Visit>) {
    forall i, j | 0 <= i < j < |queue| :: |queue[i].chain| <= |queue[j].chain| <= |queue[i].chain| + 1
  }

  /** Everything required by a visited package is visited or waiting, one link further at most. */
  predicate Reaches(lower: string -> string, g: Graph, visits: seq<Visit>, queue: seq<Visit>, v: Visit) {
    |v.chain| < MAX_LINKS ==>
      forall c | c in g && Edge(lower, g, v.item.coord, c) :: Visited(visits, c) || Queued(queue, c, |v.chain| + 1)
  }

  ghost predicate IsWalk(lower: string -> string, g: Graph, start: string, visits: seq<Visit>) {
    && (forall i | 0 <= i < |visits| :: IsEntry(lower, g, start, visits[i]) && IsShortest(lower, g, start, visits[i].chain))
    && (forall i, j | 0 <= i < j < |visits| :: visits[i].item.coord != visits[j].item.coord)
  }

  predicate Frontier(lower: string -> string, g: Graph, start: string, visits: seq<Visit>, queue: seq<Visit>) {
    && (forall i | 0 <= i < |queue| :: IsEntry(lower, g, start, queue[i]))
    && Layered(queue)
    && (forall i | 0 <= i < |visits| :: Reaches(lower, g, visits, queue, visits[i]))
    && (Visited(visits, start) || Queued(queue, start, 1))
  }

  /** Where a chain leaves the visited packages. */
  lemma FirstGap(visits: seq<Visit>, chain: seq<string>) returns (j: nat)
    requires chain != [] && !Visited(visits, Last(chain))
    ensures j < |chain| && !Visited(visits, chain[j]) && (j > 0 ==> Visited(visits, chain[j - 1]))
  {
    j := 0;
    while Visited(visits, chain[j])
      invariant 0 <= j < |chain|
      invariant j > 0 ==> Visited(visits, chain[j - 1])
      decreases |chain| - j
    {
      j := j + 1;
    }
  }

  lemma ChainPrefix(lower: string -> string, g: Graph, start: string, chain: seq<string>, j: nat)
    requires IsChain(lower, g, start, chain) && 0 < j < |chain|
    ensures IsChain(lower, g, start, chain[..j]) && Edge(lower, g, chain[j - 1], chain[j])
  {
    hide Edge;
    var prefix := chain[..j];
    forall k | 0 <= k < |prefix| - 1 ensures Edge(lower, g, prefix[k], prefix[k + 1]) {
      assert Edge(lower, g, chain[k], chain[k + 1]);
    }
    assert Edge(lower, g, chain[j - 1], chain[(j - 1) + 1]);
  }

  /** What a visited package requires next along a chain waits, no further than that chain. */
  lemma NextWaits(lower: string -> string, g: Graph, start: string, visits: seq<Visit>, queue: seq<Visit>, chain: seq<string>, j: nat)
    requires IsWalk(lower, g, start, visits) && Frontier(lower, g, start, visits, queue)
    requires IsChain(lower, g, start, chain) && |chain| <= MAX_LINKS && 0 < j < |chain|
    requires Visited(visits, chain[j - 1]) && !Visited(visits, chain[j])
    ensures Queued(queue, chain[j], j + 1)
  {
    hide IsChain, Edge, Layered;
    var i :| 0 <= i < |visits| && visits[i].item.coord == chain[j - 1];
    var v := visits[i];
    ChainPrefix(lower, g, start, chain, j);
    assert IsEntry(lower, g, start, v) && IsShortest(lower, g, start, v.chain) && Reaches(lower, g, visits, queue, v);
    assert |v.chain| <= |chain[..j]|;
    assert chain[j] in g by { EdgeEnds(lower, g, chain[j - 1], chain[j]); }
    assert Queued(queue, chain[j], |v.chain| + 1);
  }

  lemma EdgeEnds(lower: string -> string, g: Graph, a: string, b: string)
    requires Edge(lower, g, a, b)
    ensures a in g && b in g
  {
  }

  /** Along a chain that leaves the visited packages, some entry waits that is no longer than it. */
  lemma SomethingWaits(lower: string -> string, g: Graph, start: string, visits: seq<Visit>, queue: seq<Visit>, chain: seq<string>)
    requires IsWalk(lower, g, start, visits) && Frontier(lower, g, start, visits, queue)
    requires IsChain(lower, g, start, chain) && |chain| <= MAX_LINKS && !Visited(visits, Last(chain))
    ensures queue != [] && |queue[0].chain| <= |chain|
  {
    var j := FirstGap(visits, chain);
    if j > 0 { NextWaits(lower, g, start, visits, queue, chain, j); }
    hide Reaches, IsShortest, IsEntry, IsWalk;
    assert Queued(queue, chain[j], j + 1);
  }

  /** So the entry at the head of the queue, when its package is new, is a shortest chain to it. */
  lemma HeadIsShortest(lower: string -> string, g: Graph, start: string, visits: seq<Visit>, queue: seq<Visit>)
    requires IsWalk(lower, g, start, visits) && Frontier(lower, g, start, visits, queue)
    requires queue != [] && !Visited(visits, queue[0].item.coord)
    ensures IsWalk(lower, g, start, visits + [queue[0]])
  {
    var v := queue[0];
    forall other | IsChain(lower, g, start, other) && Last(other) == Last(v.chain)
      ensures |v.chain| <= |other|
    {
      if |other| < |v.chain| {
        SomethingWaits(lower, g, start, visits, queue, other);
      }
    }
  }

  method Enqueue(lower: string -> string, g: Graph, start: string, visits: seq<Visit>, v: Visit) returns (pushed: seq<Visit>)
    requires IsEntry(lower, g, start, v) && |v.chain| < MAX_LINKS && forall c | c in g :: g[c].coord == c
    ensures forall i | 0 <= i < |pushed| :: IsEntry(lower, g, start, pushed[i]) && |pushed[i].chain| == |v.chain| + 1
    ensures forall c | c in g && Edge(lower, g, v.item.coord, c) :: Visited(visits, c) || Queued(pushed, c, |v.chain| + 1)
  {
    pushed := [];
    for i := 0 to |v.item.needs|
      invariant forall k | 0 <= k < |pushed| :: IsEntry(lower, g, start, pushed[k]) && |pushed[k].chain| == |v.chain| + 1
      invariant forall k | 0 <= k < i && lower(v.item.needs[k]) in g ::
                  Visited(visits, lower(v.item.needs[k])) || Queued(pushed, lower(v.item.needs[k]), |v.chain| + 1)
    {
      var c := lower(v.item.needs[i]);
      if c in g && !Visited(visits, c) {
        var next := Visit(g[c], v.chain + [c]);
        assert Requires(lower, v.item, c);
        assert IsChain(lower, g, start, next.chain);
        ghost var before := pushed;
        pushed := pushed + [next];
        assert pushed[|before|] == next;
        forall k | 0 <= k < i && lower(v.item.needs[k]) in g
          ensures Visited(visits, lower(v.item.needs[k])) || Queued(pushed, lower(v.item.needs[k]), |v.chain| + 1)
        {
          QueuedMore(before, [next], lower(v.item.needs[k]), |v.chain| + 1);
        }
      }
    }
  }

  lemma QueuedMore(queue: seq<Visit>, more: seq<Visit>, c: string, len: int)
    ensures Queued(queue + more, c, len) <==> Queued(queue, c, len) || Queued(more, c, len)
  {
    if Queued(queue, c, len) {
      var i :| 0 <= i < |queue| && queue[i].item.coord == c && |queue[i].chain| <= len;
      assert (queue + more)[i] == queue[i];
    }
    if Queued(more, c, len) {
      var i :| 0 <= i < |more| && more[i].item.coord == c && |more[i].chain| <= len;
      assert (queue + more)[|queue| + i] == more[i];
    }
  }

  /** Dropping the head of the queue loses nothing once its package is visited. */
  lemma ReachesWithoutHead(lower: string -> string, g: Graph, visits: seq<Visit>, queue: seq<Visit>, head: Visit, v: Visit)
    requires Reaches(lower, g, visits, [head] + queue, v) && Visited(visits, head.item.coord)
    ensures Reaches(lower, g, visits, queue, v)
  {
    forall c | c in g && Edge(lower, g, v.item.coord, c) && |v.chain| < MAX_LINKS
      ensures Visited(visits, c) || Queued(queue, c, |v.chain| + 1)
    {
      QueuedMore([head], queue, c, |v.chain| + 1);
    }
  }

  lemma ReachesMore(lower: string -> string, g: Graph, visits: seq<Visit>, more: seq<Visit>, queue: seq<Visit>, pushed: seq<Visit>, v: Visit)
    requires Reaches(lower, g, visits, queue, v)
    ensures Reaches(lower, g, visits + more, queue + pushed, v)
  {
    forall c | c in g && Edge(lower, g, v.item.coord, c) && |v.chain| < MAX_LINKS
      ensures Visited(visits + more, c) || Queued(queue + pushed, c, |v.chain| + 1)
    {
      QueuedMore(queue, pushed, c, |v.chain| + 1);
      if i :| 0 <= i < |visits| && visits[i].item.coord == c { assert (visits + more)[i] == visits[i]; }
    }
  }

  lemma Skipped(lower: string -> string, g: Graph, start: string, visits: seq<Visit>, queue: seq<Visit>)
    requires queue != [] && Visited(visits, queue[0].item.coord) && Frontier(lower, g, start, visits, queue)
    ensures Frontier(lower, g, start, visits, queue[1..])
  {
    assert queue == [queue[0]] + queue[1..];
    forall i | 0 <= i < |visits| ensures Reaches(lower, g, visits, queue[1..], visits[i]) {
      ReachesWithoutHead(lower, g, visits, queue[1..], queue[0], visits[i]);
    }
    QueuedMore([queue[0]], queue[1..], start, 1);
  }

  lemma Taken(lower: string -> string, g: Graph, start: string, visits: seq<Visit>, queue: seq<Visit>, pushed: seq<Visit>)
    requires queue != [] && Frontier(lower, g, start, visits, queue)
    requires forall i | 0 <= i < |pushed| :: IsEntry(lower, g, start, pushed[i]) && |pushed[i].chain| == |queue[0].chain| + 1
    requires Reaches(lower, g, visits + [queue[0]], pushed, queue[0])
    ensures Frontier(lower, g, start, visits + [queue[0]], queue[1..] + pushed)
  {
    var v, rest := queue[0], queue[1..];
    assert queue == [v] + rest;
    var now := visits + [v];
    assert now[|visits|] == v;
    forall i | 0 <= i < |now| ensures Reaches(lower, g, now, rest + pushed, now[i]) {
      if i < |visits| {
        ReachesMore(lower, g, visits, [v], queue, [], now[i]);
        assert queue + [] == queue;
        ReachesWithoutHead(lower, g, now, rest, v, now[i]);
        ReachesMore(lower, g, now, [], rest, pushed, now[i]);
      } else {
        forall c | c in g && Edge(lower, g, v.item.coord, c) && |v.chain| < MAX_LINKS
          ensures Visited(now, c) || Queued(rest + pushed, c, |v.chain| + 1)
        {
          QueuedMore(rest, pushed, c, |v.chain| + 1);
        }
      }
      assert now + [] == now;
    }
    if Visited(visits, start) {
      var i :| 0 <= i < |visits| && visits[i].item.coord == start;
      assert now[i] == visits[i];
    } else {
      QueuedMore([v], rest, start, 1);
      QueuedMore(rest, pushed, start, 1);
    }
  }

  // ---- What the bound on the visits leaves out ----

  /** The packages that a chain of at most `len` reaches. */
  ghost function Near(lower: string -> string, g: Graph, start: string, len: nat): set<string> {
    set c | c in g && exists chain :: IsChain(lower, g, start, chain) && |chain| <= len && Last(chain) == c
  }

  /** Reached within the link bound, and few enough packages are as near. */
  ghost predicate IsClose(lower: string -> string, g: Graph, start: string, c: string) {
    exists len: nat :: len <= 20 && c in Near(lower, g, start, len) && |Near(lower, g, start, len)| <= 1000
  }

  /** The nearest come first. */
  predicate Ordered(visits: seq<Visit>) {
    forall i, j | 0 <= i < j < |visits| :: |visits[i].chain| <= |visits[j].chain|
  }

  /** No entry waits that is shorter than the last visit. */
  predicate NoneShorter(visits: seq<Visit>, queue: seq<Visit>) {
    visits != [] ==> forall i | 0 <= i < |queue| :: |visits[|visits| - 1].chain| <= |queue[i].chain|
  }

  ghost predicate AllVisited(lower: string -> string, g: Graph, start: string, visits: seq<Visit>, len: nat) {
    forall c | c in Near(lower, g, start, len) :: Visited(visits, c)
  }

  function Coords(visits: seq<Visit>): (s: seq<string>)
    ensures |s| == |visits| && forall i | 0 <= i < |s| :: s[i] == visits[i].item.coord
  {
    seq(|visits|, i requires 0 <= i < |visits| => visits[i].item.coord)
  }

  /** The visits are packages within the length of the last one, so they are no more than those. */
  lemma VisitsAreNear(lower: string -> string, g: Graph, start: string, visits: seq<Visit>, len: nat)
    requires IsWalk(lower, g, start, visits) && forall i | 0 <= i < |visits| :: |visits[i].chain| <= len
    ensures forall i | 0 <= i < |visits| :: visits[i].item.coord in Near(lower, g, start, len)
    ensures |visits| <= |Near(lower, g, start, len)|
    ensures forall c | c in Near(lower, g, start, len) && !Visited(visits, c) :: |visits| < |Near(lower, g, start, len)|
  {
    forall i | 0 <= i < |visits| ensures visits[i].item.coord in Near(lower, g, start, len) {
      assert IsEntry(lower, g, start, visits[i]);
    }
    assert Distinct(Coords(visits));
    hide IsWalk, Near;
    DistinctFits(Coords(visits), Near(lower, g, start, len));
    forall c | c in Near(lower, g, start, len) && !Visited(visits, c) ensures |visits| < |Near(lower, g, start, len)| {
      assert forall i | 0 <= i < |visits| :: visits[i].item.coord != c;
      DistinctFits(Coords(visits), Near(lower, g, start, len) - {c});
    }
  }

  lemma NearHasNoMore(near: set<string>, visits: seq<Visit>)
    requires forall c | c in near :: Visited(visits, c)
    ensures |near| <= |visits|
  {
    var coords := set i | 0 <= i < |visits| :: Coords(visits)[i];
    ImageIsNoLarger(Coords(visits));
    assert near <= coords;
    SubsetIsNoLarger(near, coords);
  }

  lemma {:induction false} ImageIsNoLarger(s: seq<string>)
    ensures |set i | 0 <= i < |s| :: s[i]| <= |s|
  {
    var image := set i | 0 <= i < |s| :: s[i];
    if s == [] {
      assert image == {};
    } else {
      var rest := s[..|s| - 1];
      ImageIsNoLarger(rest);
      assert image == (set i | 0 <= i < |rest| :: rest[i]) + {s[|s| - 1]};
    }
  }

  lemma {:induction false} SubsetIsNoLarger(a: set<string>, b: set<string>)
    requires a <= b
    ensures |a| <= |b|
  {
    if x :| x in a { SubsetIsNoLarger(a - {x}, b - {x}); }
  }

  /** When the walk stops for want of entries, it has visited everything within the link bound. */
  lemma NothingLeft(lower: string -> string, g: Graph, start: string, visits: seq<Visit>)
    requires IsWalk(lower, g, start, visits) && Frontier(lower, g, start, visits, [])
    ensures AllVisited(lower, g, start, visits, MAX_LINKS)
  {
    hide IsWalk, Frontier;
    forall c | c in Near(lower, g, start, MAX_LINKS) ensures Visited(visits, c) {
      var chain :| IsChain(lower, g, start, chain) && |chain| <= MAX_LINKS && Last(chain) == c;
      if !Visited(visits, c) { SomethingWaits(lower, g, start, visits, [], chain); }
    }
  }

  /** When it stops at the bound on the visits, it has visited everything as near as few enough others. */
  lemma CloseIsVisited(lower: string -> string, g: Graph, start: string, visits: seq<Visit>, queue: seq<Visit>, c: string)
    requires IsWalk(lower, g, start, visits) && Frontier(lower, g, start, visits, queue)
    requires Ordered(visits) && NoneShorter(visits, queue) && |visits| == MAX_VISITS
    requires IsClose(lower, g, start, c)
    ensures Visited(visits, c)
  {
    hide IsWalk, Frontier;
    var len: nat :| len <= MAX_LINKS && c in Near(lower, g, start, len) && |Near(lower, g, start, len)| <= MAX_VISITS;
    var chain :| IsChain(lower, g, start, chain) && |chain| <= len && Last(chain) == c;
    if !Visited(visits, c) {
      SomethingWaits(lower, g, start, visits, queue, chain);
      hide Near;
      VisitsAreNear(lower, g, start, visits, len);
    }
  }

  /** Everything nearer than the last visit was visited. */
  lemma NearerIsVisited(lower: string -> string, g: Graph, start: string, visits: seq<Visit>, queue: seq<Visit>, len: nat)
    requires IsWalk(lower, g, start, visits) && Frontier(lower, g, start, visits, queue) && NoneShorter(visits, queue)
    requires visits != [] && len < |visits[|visits| - 1].chain| <= MAX_LINKS
    ensures AllVisited(lower, g, start, visits, len)
  {
    hide IsWalk, Frontier;
    forall c | c in Near(lower, g, start, len) ensures Visited(visits, c) {
      var chain :| IsChain(lower, g, start, chain) && |chain| <= len && Last(chain) == c;
      if !Visited(visits, c) { SomethingWaits(lower, g, start, visits, queue, chain); }
    }
  }

  /** What the walk has done when it stops. */
  ghost predicate WalkedAll(lower: string -> string, g: Graph, start: string, visits: seq<Visit>) {
    && IsWalk(lower, g, start, visits) && Ordered(visits)
    && |visits| == Min(|Near(lower, g, start, 20)|, 1000)
    && (forall c | IsClose(lower, g, start, c) :: Visited(visits, c))
    && (visits != [] ==> forall len: nat | len < |visits[|visits| - 1].chain| :: AllVisited(lower, g, start, visits, len))
  }

  lemma Stopped(lower: string -> string, g: Graph, start: string, visits: seq<Visit>, queue: seq<Visit>)
    requires IsWalk(lower, g, start, visits) && Frontier(lower, g, start, visits, queue)
    requires Ordered(visits) && NoneShorter(visits, queue) && |visits| <= MAX_VISITS
    requires queue == [] || |visits| == MAX_VISITS
    ensures WalkedAll(lower, g, start, visits)
  {
    EntriesAreShort(lower, g, start, visits);
    hide IsWalk, Frontier, Near, Ordered, NoneShorter, IsClose, IsEntry;
    VisitsAreNear(lower, g, start, visits, MAX_LINKS);
    if queue == [] {
      NothingLeft(lower, g, start, visits);
      NearHasNoMore(Near(lower, g, start, MAX_LINKS), visits);
      forall c | IsClose(lower, g, start, c) ensures Visited(visits, c) { CloseIsNear(lower, g, start, c); }
    } else {
      forall c | IsClose(lower, g, start, c) ensures Visited(visits, c) {
        CloseIsVisited(lower, g, start, visits, queue, c);
      }
    }
    if visits != [] {
      forall len: nat | len < |visits[|visits| - 1].chain| ensures AllVisited(lower, g, start, visits, len) {
        NearerIsVisited(lower, g, start, visits, queue, len);
      }
    }
  }

  lemma EntriesAreShort(lower: string -> string, g: Graph, start: string, visits: seq<Visit>)
    requires IsWalk(lower, g, start, visits)
    ensures forall i | 0 <= i < |visits| :: |visits[i].chain| <= MAX_LINKS
  {
    assert forall i | 0 <= i < |visits| :: IsEntry(lower, g, start, visits[i]);
  }

  lemma CloseIsNear(lower: string -> string, g: Graph, start: string, c: string)
    requires IsClose(lower, g, start, c)
    ensures c in Near(lower, g, start, MAX_LINKS)
  {
  }

  lemma StillOrdered(visits: seq<Visit>, queue: seq<Visit>, pushed: seq<Visit>)
    requires queue != [] && Layered(queue) && Ordered(visits) && NoneShorter(visits, queue)
    requires forall i | 0 <= i < |pushed| :: |pushed[i].chain| == |queue[0].chain| + 1
    ensures Ordered(visits + [queue[0]]) && NoneShorter(visits + [queue[0]], queue[1..] + pushed)
  {
  }

  /**
   * The packages the walk reaches, each with a shortest chain and the nearest first. Of those that
   * a chain of at most 20 reaches it visits 1000 at most, and all if they are fewer; none is missed
   * that is nearer than the last visit, or as near as no more than 1000 packages are.
   */
  method Walk(lower: string -> string, g: Graph, start: string) returns (visits: seq<Visit>)
    requires start in g && forall c | c in g :: g[c].coord == c
    ensures visits != [] && WalkedAll(lower, g, start, visits)
  {
    hide WalkedAll;
    var queue := [Visit(g[start], [start])];
    assert queue[0].item.coord == start;
    visits := [];
    while queue != [] && |visits| < MAX_VISITS
      invariant |visits| <= MAX_VISITS && (visits == [] ==> queue != [])
      invariant IsWalk(lower, g, start, visits) && Frontier(lower, g, start, visits, queue)
      invariant Ordered(visits) && NoneShorter(visits, queue)
      decreases MAX_VISITS - |visits|, |queue|
    {
      var v := queue[0];
      if Visited(visits, v.item.coord) {
        Skipped(lower, g, start, visits, queue);
        queue := queue[1..];
        continue;
      }
      HeadIsShortest(lower, g, start, visits, queue);
      var pushed := [];
      if |v.chain| < MAX_LINKS {
        pushed := Enqueue(lower, g, start, visits + [v], v);
      }
      Taken(lower, g, start, visits, queue, pushed);
      StillOrdered(visits, queue, pushed);
      visits, queue := visits + [v], queue[1..] + pushed;
    }
    Stopped(lower, g, start, visits, queue);
  }
}
