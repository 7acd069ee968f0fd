/**
 * When compareMavenVersions is an order (lib/maven-version.js:78-135).
 *
 * It is not one on all versions. A zero that a later non-zero number keeps significant, and a
 * release synonym carrying a number (ga1), both tie with an absent segment without being one.
 * `Orderly` versions settle such a tie at the very next segment. The comparison is a total
 * preorder on them, and every version that is not Orderly closes a cycle with two that are.
 */
module MavenOrder {
  import opened Basics
  import opened Orders
  import opened MavenVersion

  // ---- Segments that tie with an absent one ----

  /** `s` was flagged by the zero-tail pass: only zeros carry the flag. */
  predicate WellFlagged(s: Segment) {
    s.Num? && s.zeroTail ==> s.value == 0
  }

  predicate Absent(o: Option<Segment>) {
    o.None? || (o.value.Num? && o.value.zeroTail)
  }

  /** A number the comparison counts: not a normalised-away zero. */
  predicate Counted(o: Option<Segment>) {
    o.Some? && o.value.Num? && !o.value.zeroTail
  }

  /** Ties with an absent segment, yet is told apart from one by other segments. */
  predicate Deferring(s: Segment) {
    || (s.Num? && s.value == 0 && !s.zeroTail)
    || (s.QualNum? && Rank(s.qual) == RELEASE_RANK && s.num > 0)
  }

  predicate Settled(m: seq<Segment>, i: nat)
    requires i < |m|
  {
    Deferring(m[i]) ==> Counted(At(m, i + 1))
  }

  /** Every zero that counts, and every numbered release synonym, has a counted number next. */
  predicate Orderly(v: seq<Segment>) {
    var m := Marked(v);
    forall i | 0 <= i < |m| :: Settled(m, i)
  }

  // ---- A comparator that decides deferred ties on the spot ----

  function Level(o: Option<Segment>): nat {
    if Absent(o) then 60
    else
      var s := o.value;
      if s.Num? then if s.value == 0 then 90 else if s.sep == Dash then 91 else 92
      else
        var r := Rank(QualOf(s));
        if Deferring(s) then 61 else 10 * r
  }

  function Name(o: Option<Segment>): string {
    if o.Some? && !o.value.Num? && Rank(QualOf(o.value)) == UNKNOWN_RANK then QualOf(o.value) else ""
  }

  function Minor(o: Option<Segment>): nat {
    if o.None? then 0
    else match o.value
      case Num(v, _, _) => v
      case QualNum(_, n, _) => n
      case Str(_, _) => 0
  }

  function Refined(collate: Collation, a: Option<Segment>, b: Option<Segment>): int {
    if Level(a) != Level(b) then Level(a) - Level(b)
    else if collate(Name(a), Name(b)) != 0 then collate(Name(a), Name(b))
    else Minor(a) - Minor(b)
  }

  lemma RefinedIsTotalPreorder(collate: Collation, a: Option<Segment>, b: Option<Segment>, c: Option<Segment>)
    requires TotalPreorder(collate)
    ensures Sign(Refined(collate, a, b)) == -Sign(Refined(collate, b, a))
    ensures Refined(collate, a, b) <= 0 && Refined(collate, b, c) <= 0 ==> Refined(collate, a, c) <= 0
  {
    var p, q, r := Name(a), Name(b), Name(c);
    assert Sign(collate(p, q)) == -Sign(collate(q, p));
    assert Sign(collate(q, r)) == -Sign(collate(r, q));
    assert Sign(collate(p, r)) == -Sign(collate(r, p));
    assert collate(p, q) <= 0 && collate(q, r) <= 0 ==> collate(p, r) <= 0;
    assert collate(r, p) <= 0 && collate(p, q) <= 0 ==> collate(r, q) <= 0;
    assert collate(q, r) <= 0 && collate(r, p) <= 0 ==> collate(q, p) <= 0;
  }

  predicate DeferredTie(a: Option<Segment>, b: Option<Segment>) {
    a.Some? && Deferring(a.value) && Absent(b)
  }

  /** The two comparators differ only where one of the segments defers. */
  lemma RefinedAgrees(collate: Collation, a: Option<Segment>, b: Option<Segment>)
    requires Antisymmetric(collate) && (a.Some? || b.Some?)
    requires a.Some? ==> WellFlagged(a.value)
    requires b.Some? ==> WellFlagged(b.value)
    ensures DeferredTie(a, b) ==> CmpSegments(collate, a, b) == 0 && Refined(collate, a, b) > 0
    ensures DeferredTie(b, a) ==> CmpSegments(collate, a, b) == 0 && Refined(collate, a, b) < 0
    ensures !DeferredTie(a, b) && !DeferredTie(b, a) ==> Sign(CmpSegments(collate, a, b)) == Sign(Refined(collate, a, b))
  {
    assert Sign(collate("", "")) == -Sign(collate("", ""));
  }

  function RefinedFrom(collate: Collation, a: seq<Segment>, b: seq<Segment>, i: nat): (r: int)
    ensures -1 <= r <= 1
    decreases |a| + |b| - i
  {
    if i >= |a| && i >= |b| then 0
    else
      var c := Refined(collate, At(a, i), At(b, i));
      if c != 0 then Sign(c) else RefinedFrom(collate, a, b, i + 1)
  }

  lemma RefinedNothing(collate: Collation)
    requires Antisymmetric(collate)
    ensures Refined(collate, None, None) == 0
  {
    assert Sign(collate("", "")) == -Sign(collate("", ""));
  }

  lemma {:induction false} RefinedFromTransitive(collate: Collation, a: seq<Segment>, b: seq<Segment>, c: seq<Segment>, i: nat)
    requires TotalPreorder(collate)
    requires RefinedFrom(collate, a, b, i) <= 0 && RefinedFrom(collate, b, c, i) <= 0
    ensures RefinedFrom(collate, a, c, i) <= 0
    decreases |a| + |b| + |c| - i
  {
    RefinedNothing(collate);
    if i < |a| || i < |b| || i < |c| {
      var x, y, z := At(a, i), At(b, i), At(c, i);
      RefinedIsTotalPreorder(collate, x, y, z);
      RefinedIsTotalPreorder(collate, y, z, x);
      RefinedIsTotalPreorder(collate, z, x, y);
      if Refined(collate, x, z) == 0 {
        RefinedFromTransitive(collate, a, b, c, i + 1);
      }
    }
  }

  /** The pending tie of an orderly version always ends in its favour. */
  lemma {:induction false} DeferredWins(collate: Collation, v: seq<Segment>, w: seq<Segment>, i: nat)
    requires Antisymmetric(collate) && Orderly(v)
    requires DeferredTie(At(Marked(v), i), At(Marked(w), i))
    ensures CompareFrom(collate, Marked(v), Marked(w), i) == 1
    decreases |v| - i
  {
    var a, b := Marked(v), Marked(w);
    RefinedAgrees(collate, At(a, i), At(b, i));
    assert Settled(a, i);
    RefinedAgrees(collate, At(a, i + 1), At(b, i + 1));
    if DeferredTie(At(a, i + 1), At(b, i + 1)) {
      DeferredWins(collate, v, w, i + 1);
    }
  }

  lemma {:induction false} CompareIsRefined(collate: Collation, v: seq<Segment>, w: seq<Segment>, i: nat)
    requires Antisymmetric(collate) && Orderly(v) && Orderly(w)
    ensures CompareFrom(collate, Marked(v), Marked(w), i) == RefinedFrom(collate, Marked(v), Marked(w), i)
    decreases |v| + |w| - i
  {
    var a, b := Marked(v), Marked(w);
    if i < |a| || i < |b| {
      RefinedAgrees(collate, At(a, i), At(b, i));
      if DeferredTie(At(a, i), At(b, i)) {
        DeferredWins(collate, v, w, i);
      } else if DeferredTie(At(b, i), At(a, i)) {
        DeferredWins(collate, w, v, i);
        CompareFromAntisymmetric(collate, a, b, i);
      } else {
        CompareIsRefined(collate, v, w, i + 1);
      }
    }
  }

  lemma OrderlyTransitive(collate: Collation, x: seq<Segment>, y: seq<Segment>, z: seq<Segment>)
    requires TotalPreorder(collate) && Orderly(x) && Orderly(y) && Orderly(z)
    requires Compare(collate, x, y) <= 0 && Compare(collate, y, z) <= 0
    ensures Compare(collate, x, z) <= 0
  {
    CompareIsRefined(collate, x, y, 0);
    CompareIsRefined(collate, y, z, 0);
    CompareIsRefined(collate, x, z, 0);
    RefinedFromTransitive(collate, Marked(x), Marked(y), Marked(z), 0);
  }

  // ---- A version that is not orderly always closes a cycle ----

  /** `top` is newer than `o` and than the release, and brings no number that counts. */
  ghost predicate Tops(collate: Collation, top: Segment, o: Option<Segment>) {
    !top.Num? && Rank(QualOf(top)) > RELEASE_RANK && CmpSegments(collate, o, Some(top)) < 0
  }

  function Above(o: Option<Segment>): (s: Segment)
    ensures !s.Num? && Rank(QualOf(s)) > RELEASE_RANK
  {
    if o.None? || o.value.Num? || Rank(QualOf(o.value)) <= RELEASE_RANK then Str("sp", Dot)
    else QualNum(QualOf(o.value), Minor(o) + 1, Dot)
  }

  lemma AboveIsNewer(collate: Collation, o: Option<Segment>)
    requires Antisymmetric(collate) && !Counted(o)
    requires o.Some? ==> WellFlagged(o.value)
    ensures Tops(collate, Above(o), o)
  {
    if o.Some? && !o.value.Num? {
      var q := QualOf(o.value);
      assert Sign(collate(q, q)) == -Sign(collate(q, q));
    }
  }

  /** `t` brings no number that counts and no numbered release synonym. */
  predicate Plain(t: seq<Segment>) {
    forall i | 0 <= i < |t| ::
      && (t[i].Num? ==> t[i].value == 0)
      && (t[i].QualNum? ==> Rank(t[i].qual) > RELEASE_RANK)
  }

  /** Cutting `v` at `c` loses no number a zero before `c` is kept for. */
  predicate CleanCut(v: seq<Segment>, c: nat)
    requires c <= |v|
  {
    var m := Marked(v);
    && (forall k | 0 <= k < c :: Settled(m, k))
    && (c > 0 ==> !Deferring(m[c - 1]))
  }

  lemma {:induction false} NonZeroBeforeCut(v: seq<Segment>, k: nat, c: nat) returns (j: nat)
    requires k < c <= |v| && CleanCut(v, c)
    requires v[k].Num? && v[k].value == 0 && !IsZeroTail(v, k)
    ensures k < j < c && v[j].Num? && v[j].value != 0
    decreases c - k
  {
    var m := Marked(v);
    assert Settled(m, k) && Deferring(m[k]);
    assert Counted(At(m, k + 1));
    if v[k + 1].value != 0 {
      j := k + 1;
    } else {
      j := NonZeroBeforeCut(v, k + 1, c);
    }
  }

  lemma CutAndExtend(v: seq<Segment>, c: nat, t: seq<Segment>)
    requires c <= |v| && CleanCut(v, c) && Plain(t)
    ensures Orderly(v[..c] + t)
  {
    var e, m := v[..c] + t, Marked(v);
    forall k | 0 <= k < |e|
      ensures Settled(Marked(e), k)
    {
      if k < c && Deferring(Marked(e)[k]) {
        assert e[k] == v[k];
        if v[k].Num? {
          var j :| k < j < |e| && e[j].Num? && e[j].value != 0;
          assert j < c && e[j] == v[j];
          assert Deferring(m[k]);
        }
        assert Settled(m, k);
        assert k + 1 < c && e[k + 1] == v[k + 1];
        if v[k + 1].value == 0 {
          var j := NonZeroBeforeCut(v, k + 1, c);
          assert e[j] == v[j];
        }
      }
    }
  }

  lemma SameSegmentTies(collate: Collation, s: Segment, t: Segment)
    requires Antisymmetric(collate)
    requires s == t || (s.Num? && t.Num? && s.value == t.value && s.sep == t.sep)
    ensures CmpSegments(collate, Some(s), Some(t)) == 0
  {
    if !s.Num? {
      assert Sign(collate(QualOf(s), QualOf(s))) == -Sign(collate(QualOf(s), QualOf(s)));
    }
  }

  lemma {:induction false} SharedPrefix(collate: Collation, v: seq<Segment>, w: seq<Segment>, i: nat, c: nat)
    requires Antisymmetric(collate)
    requires i <= c <= |v| && c <= |w| && v[..c] == w[..c]
    ensures CompareFrom(collate, Marked(v), Marked(w), i) == CompareFrom(collate, Marked(v), Marked(w), c)
    decreases c - i
  {
    hide CmpSegments, Marked;
    if i < c {
      assert v[i] == v[..c][i] && w[i] == w[..c][i];
      SameSegmentTies(collate, Marked(v)[i], Marked(w)[i]);
      SharedPrefix(collate, v, w, i + 1, c);
    }
  }

  function Zeros(n: nat): (z: seq<Segment>)
    ensures |z| == n && forall i | 0 <= i < n :: z[i] == Num(0, Dot, false)
  {
    seq(n, _ => Num(0, Dot, false))
  }

  /** `m[c..i]` is a run of deferring segments, none before it unsettled, that ends unsettled. */
  ghost predicate UnsettledRun(m: seq<Segment>, c: nat, i: nat) {
    && c <= i < |m|
    && (forall k | c <= k <= i :: Deferring(m[k]))
    && (forall k | 0 <= k < i :: Settled(m, k))
    && !Settled(m, i)
    && (c > 0 ==> !Deferring(m[c - 1]))
  }

  lemma FindUnsettledRun(x: seq<Segment>) returns (c: nat, i: nat)
    requires !Orderly(x)
    ensures UnsettledRun(Marked(x), c, i)
  {
    var m := Marked(x);
    i := 0;
    while Settled(m, i)
      invariant i < |m|
      invariant forall k | 0 <= k < i :: Settled(m, k)
      decreases |m| - i
    {
      assert exists k :: i < k < |m| && !Settled(m, k) by {
        var k :| 0 <= k < |m| && !Settled(m, k);
        assert k != i && k >= i;
      }
      i := i + 1;
    }
    c := i;
    while c > 0 && Deferring(m[c - 1])
      invariant c <= i
      invariant forall k | c <= k <= i :: Deferring(m[k])
    {
      c := c - 1;
    }
  }

  /** Segments c..i of `x` all tie with the flagged zeros of `y`, so segment i + 1 decides. */
  lemma {:induction false} RunTies(collate: Collation, x: seq<Segment>, y: seq<Segment>, k: nat, i: nat)
    requires Antisymmetric(collate) && k <= i + 1 && i < |x| && i < |y|
    requires forall j | k <= j <= i :: DeferredTie(At(Marked(x), j), At(Marked(y), j))
    ensures CompareFrom(collate, Marked(x), Marked(y), k) == CompareFrom(collate, Marked(x), Marked(y), i + 1)
    decreases i + 1 - k
  {
    if k <= i {
      RefinedAgrees(collate, At(Marked(x), k), At(Marked(y), k));
      RunTies(collate, x, y, k + 1, i);
    }
  }

  /** The run replaced by zeros, then something newer than what follows it in `x`. */
  function Higher(x: seq<Segment>, c: nat, i: nat, top: Segment): seq<Segment>
    requires c <= i < |x|
  {
    x[..c] + (Zeros(i - c + 1) + [top])
  }

  /** A qualifier older than the first segment of the run in its place. */
  function Lower(x: seq<Segment>, c: nat, top: Segment): seq<Segment>
    requires c < |x|
  {
    x[..c] + [Gap(x[c]), top]
  }

  function Gap(s: Segment): Segment {
    if s.Num? then Str("sp", Dot) else Str("ga", Dot)
  }

  lemma ZerosThenTop(p: seq<Segment>, n: nat, top: Segment)
    requires !top.Num?
    ensures var y := p + (Zeros(n) + [top]);
            && |y| == |p| + n + 1 && y[..|p|] == p && y[|p| + n] == top
            && forall k | |p| <= k < |p| + n :: Marked(y)[k] == Num(0, Dot, true)
  {
    var y := p + (Zeros(n) + [top]);
    forall k | |p| <= k < |p| + n
      ensures Marked(y)[k] == Num(0, Dot, true)
    {
      assert y[k] == Zeros(n)[k - |p|];
      forall j | k < j < |y| ensures y[j].Num? ==> y[j].value == 0 {
        assert y[j] == if j < |p| + n then Zeros(n)[j - |p|] else top;
      }
    }
  }

  lemma HigherShape(x: seq<Segment>, c: nat, i: nat, top: Segment)
    requires c <= i < |x| && !top.Num?
    ensures var y := Higher(x, c, i, top);
            && |y| == i + 2 && y[..c] == x[..c] && y[i + 1] == top
            && forall k | c <= k <= i :: At(Marked(y), k) == Some(Num(0, Dot, true))
  {
    ZerosThenTop(x[..c], i - c + 1, top);
  }

  lemma WitnessesAreOrderly(x: seq<Segment>, c: nat, i: nat, top: Segment)
    requires UnsettledRun(Marked(x), c, i) && !top.Num? && Rank(QualOf(top)) > RELEASE_RANK
    ensures Orderly(Higher(x, c, i, top)) && Orderly(Lower(x, c, top))
  {
    assert CleanCut(x, c);
    CutAndExtend(x, c, Zeros(i - c + 1) + [top]);
    CutAndExtend(x, c, [Gap(x[c]), top]);
  }

  lemma BelowHigher(collate: Collation, x: seq<Segment>, c: nat, i: nat, top: Segment)
    requires Antisymmetric(collate) && UnsettledRun(Marked(x), c, i) && Tops(collate, top, At(Marked(x), i + 1))
    ensures Compare(collate, x, Higher(x, c, i, top)) < 0
  {
    hide Higher, CmpSegments;
    var y := Higher(x, c, i, top);
    HigherShape(x, c, i, top);
    SharedPrefix(collate, x, y, 0, c);
    RunTies(collate, x, y, c, i);
  }

  lemma ZeroAgainstQualifier(collate: Collation, a: seq<Segment>, b: seq<Segment>, k: nat, q: Segment)
    requires At(a, k) == Some(Num(0, Dot, true)) && At(b, k) == Some(q) && !q.Num?
    ensures Rank(QualOf(q)) > RELEASE_RANK ==> CompareFrom(collate, a, b, k) == -1
    ensures Rank(QualOf(q)) == RELEASE_RANK ==> CompareFrom(collate, a, b, k) == CompareFrom(collate, a, b, k + 1)
  {
  }

  lemma SameLastSegment(collate: Collation, a: seq<Segment>, b: seq<Segment>, q: Segment)
    requires Antisymmetric(collate) && |a| == |b| > 0 && a[|a| - 1] == b[|b| - 1] == q && !q.Num?
    ensures CompareFrom(collate, a, b, |a| - 1) == 0
  {
    SameSegmentTies(collate, q, q);
    assert CompareFrom(collate, a, b, |a|) == 0;
  }

  lemma ZerosAgainstQualifiers(collate: Collation, a: seq<Segment>, b: seq<Segment>, c: nat, i: nat, gap: Segment, top: Segment)
    requires Antisymmetric(collate) && c <= i && |a| == i + 2 && |b| == c + 2
    requires forall k | c <= k <= i :: At(a, k) == Some(Num(0, Dot, true))
    requires a[i + 1] == top && b[c] == gap && b[c + 1] == top
    requires !gap.Num? && !top.Num? && Rank(QualOf(gap)) >= RELEASE_RANK && Rank(QualOf(top)) > RELEASE_RANK
    ensures CompareFrom(collate, a, b, c) <= 0
  {
    ZeroAgainstQualifier(collate, a, b, c, gap);
    if Rank(QualOf(gap)) == RELEASE_RANK {
      if i == c {
        SameLastSegment(collate, a, b, top);
      } else {
        assert At(a, c + 1) == Some(Num(0, Dot, true));
        ZeroAgainstQualifier(collate, a, b, c + 1, top);
      }
    }
  }

  lemma HigherNotAboveLower(collate: Collation, x: seq<Segment>, c: nat, i: nat, top: Segment)
    requires Antisymmetric(collate) && c <= i < |x| && !top.Num? && Rank(QualOf(top)) > RELEASE_RANK
    ensures Compare(collate, Higher(x, c, i, top), Lower(x, c, top)) <= 0
  {
    var y, z := Higher(x, c, i, top), Lower(x, c, top);
    HigherShape(x, c, i, top);
    assert Rank(QualOf(z[c])) >= RELEASE_RANK by { assert Rank("sp") == 7 && Rank("ga") == RELEASE_RANK; }
    ZerosAgainstQualifiers(collate, Marked(y), Marked(z), c, i, z[c], top);
    SharedPrefix(collate, y, z, 0, c);
  }

  lemma GapIsOlder(collate: Collation, s: Segment)
    requires Deferring(s)
    ensures CmpSegments(collate, Some(Gap(s)), Some(s)) < 0
  {
    assert Rank("ga") == RELEASE_RANK;
  }

  lemma LowerIsBelow(collate: Collation, x: seq<Segment>, c: nat, i: nat, top: Segment)
    requires Antisymmetric(collate) && UnsettledRun(Marked(x), c, i)
    ensures Compare(collate, Lower(x, c, top), x) < 0
  {
    var z := Lower(x, c, top);
    GapIsOlder(collate, Marked(x)[c]);
    SharedPrefix(collate, z, x, 0, c);
  }

  /** Where the run of `x` ends unsettled, a newer word in the next place closes a cycle. */
  lemma CycleThrough(collate: Collation, x: seq<Segment>, c: nat, i: nat, top: Segment)
    requires TotalPreorder(collate) && UnsettledRun(Marked(x), c, i) && Tops(collate, top, At(Marked(x), i + 1))
    ensures var y, z := Higher(x, c, i, top), Lower(x, c, top);
            && Orderly(y) && Orderly(z)
            && Compare(collate, x, y) < 0 && Compare(collate, y, z) <= 0 && Compare(collate, z, x) < 0
  {
    hide Higher, Lower, Orderly, Compare, CmpSegments;
    WitnessesAreOrderly(x, c, i, top);
    BelowHigher(collate, x, c, i, top);
    HigherNotAboveLower(collate, x, c, i, top);
    LowerIsBelow(collate, x, c, i, top);
  }

  lemma CycleWith(collate: Collation, x: seq<Segment>) returns (y: seq<Segment>, z: seq<Segment>)
    requires TotalPreorder(collate) && !Orderly(x)
    ensures Orderly(y) && Orderly(z)
    ensures Compare(collate, x, y) < 0 && Compare(collate, y, z) <= 0 && Compare(collate, z, x) < 0
  {
    var c, i := FindUnsettledRun(x);
    var next := At(Marked(x), i + 1);
    AboveIsNewer(collate, next);
    CycleThrough(collate, x, c, i, Above(next));
    y, z := Higher(x, c, i, Above(next)), Lower(x, c, Above(next));
  }

  function Comparator(collate: Collation): (seq<Segment>, seq<Segment>) -> int {
    (v, w) => Compare(collate, v, w)
  }

  /**
   * Orderly is exactly what the order needs: a version chains consistently with all orderly
   * versions if and only if it is orderly itself.
   */
  lemma OrderlyIsExact(collate: Collation, x: seq<Segment>)
    requires TotalPreorder(collate)
    ensures Orderly(x) <==>
            forall y, z | Orderly(y) && Orderly(z) :: ConsistentTriple(Comparator(collate), x, y, z)
  {
    if Orderly(x) {
      forall y, z | Orderly(y) && Orderly(z)
        ensures ConsistentTriple(Comparator(collate), x, y, z)
      {
        if Compare(collate, x, y) <= 0 && Compare(collate, y, z) <= 0 { OrderlyTransitive(collate, x, y, z); }
        if Compare(collate, y, z) <= 0 && Compare(collate, z, x) <= 0 { OrderlyTransitive(collate, y, z, x); }
        if Compare(collate, z, x) <= 0 && Compare(collate, x, y) <= 0 { OrderlyTransitive(collate, z, x, y); }
      }
    } else {
      var y, z := CycleWith(collate, x);
      CompareAntisymmetric(collate, x, y);
      CompareAntisymmetric(collate, z, x);
      assert !ConsistentTriple(Comparator(collate), x, y, z);
    }
  }

  /** Numbers first, qualifiers after, and no number on a release synonym. */
  predicate Conventional(v: seq<Segment>) {
    && (forall i, j | 0 <= i < j < |v| :: v[j].Num? ==> v[i].Num?)
    && (forall i | 0 <= i < |v| :: v[i].QualNum? ==> Rank(v[i].qual) != RELEASE_RANK)
  }

  lemma ConventionalIsOrderly(v: seq<Segment>)
    requires Conventional(v)
    ensures Orderly(v)
  {
    var m := Marked(v);
    forall i | 0 <= i < |m|
      ensures Settled(m, i)
    {
      if Deferring(m[i]) {
        var j :| i < j < |v| && v[j].Num? && v[j].value != 0;
        assert v[i + 1].Num?;
        assert j > i + 1 || v[i + 1].value != 0;
      }
    }
  }

  /** 1 < 1-jre < 1.0-rc-1 < 1: the comparison is no order on all versions. */
  lemma NotTransitiveInGeneral(collate: Collation)
    ensures var one := [Num(1, Dot, false)];
            var jre := [Num(1, Dot, false), Str("jre", Dash)];
            var rc := [Num(1, Dot, false), Num(0, Dot, false), Str("rc", Dash), Num(1, Dash, false)];
            && Compare(collate, one, jre) < 0
            && Compare(collate, jre, rc) < 0
            && Compare(collate, rc, one) < 0
  {
    var one := [Num(1, Dot, false)];
    var jre := [Num(1, Dot, false), Str("jre", Dash)];
    var rc := [Num(1, Dot, false), Num(0, Dot, false), Str("rc", Dash), Num(1, Dash, false)];
    assert rc[3].Num? && rc[3].value != 0;
    assert !IsZeroTail(rc, 1);
    assert Rank("jre") == UNKNOWN_RANK && Rank("rc") == 4;
    assert CompareFrom(collate, Marked(one), Marked(jre), 1) < 0;
    assert CompareFrom(collate, Marked(jre), Marked(rc), 1) < 0;
    assert CompareFrom(collate, Marked(rc), Marked(one), 2) < 0;
    assert CompareFrom(collate, Marked(rc), Marked(one), 1) < 0;
  }

  /** The order other modules rank orderly versions with. */
  lemma OrderlyRanks(collate: Collation)
    requires TotalPreorder(collate)
    ensures RanksOn(Comparator(collate), (v: seq<Segment>) => Orderly(v))
  {
    var cmp := Comparator(collate);
    forall x, y | Orderly(x) && Orderly(y) ensures Sign(cmp(x, y)) == -Sign(cmp(y, x)) {
      CompareAntisymmetric(collate, x, y);
    }
    forall x, y, z | Orderly(x) && Orderly(y) && Orderly(z) && cmp(x, y) <= 0 && cmp(y, z) <= 0 ensures cmp(x, z) <= 0 {
      OrderlyTransitive(collate, x, y, z);
    }
  }
}
