/**
 * Between any two orderly Maven versions lies a third (lib/maven-version.js:78-135): `ga` ties with
 * the release and `sp` after it is newer, so a version followed by both is newer than itself and
 * older than whatever is newer.
 */
module MavenDensity {
  import opened Basics
  import opened Orders
  import opened MavenVersion
  import opened MavenOrder
  import opened MavenParse
  import opened MavenSpelling

  /** `x`, filled up with zeros, and then as little more as can be. */
  function Bump(x: seq<Segment>, n: nat): seq<Segment> {
    x + (Zeros(n) + [Str("ga", Dot), Str("sp", Dot)])
  }

  lemma BumpMarks(x: seq<Segment>, n: nat)
    ensures var b := Marked(Bump(x, n));
            && |b| == |x| + n + 2 && b[|x| + n] == Str("ga", Dot) && b[|x| + n + 1] == Str("sp", Dot)
            && (forall i | 0 <= i < |x| :: b[i] == Marked(x)[i])
            && (forall i | |x| <= i < |x| + n :: b[i] == Num(0, Dot, true))
  {
    var b := Bump(x, n);
    assert forall i | 0 <= i < |x| :: b[i] == x[i];
    assert forall i | |x| <= i < |x| + n :: b[i] == Zeros(n)[i - |x|];
    assert b[|x| + n] == Str("ga", Dot) && b[|x| + n + 1] == Str("sp", Dot);
    forall i | 0 <= i < |x| ensures Marked(b)[i] == Marked(x)[i] {
      if x[i].Num? { SameTail(x, b, i); }
    }
  }

  /** What adds no number but zeros leaves the flags of earlier segments alone. */
  lemma SameTail(x: seq<Segment>, b: seq<Segment>, i: nat)
    requires i < |x| <= |b| && (forall j | 0 <= j < |x| :: b[j] == x[j])
    requires forall j | |x| <= j < |b| && b[j].Num? :: b[j].value == 0
    ensures IsZeroTail(b, i) <==> IsZeroTail(x, i)
  {
    if IsZeroTail(b, i) {
      forall j | i < j < |x| && x[j].Num? ensures x[j].value == 0 { assert b[j] == x[j]; }
    }
  }

  lemma BumpIsOrderly(x: seq<Segment>, n: nat)
    requires Orderly(x)
    ensures Orderly(Bump(x, n))
  {
    if x != [] { assert Settled(Marked(x), |x| - 1); }
    CutAndExtend(x, |x|, Zeros(n) + [Str("ga", Dot), Str("sp", Dot)]);
    assert x[..|x|] == x;
  }

  /** Positions that tie can be passed over. */
  lemma {:induction false} SkipTies(collate: Collation, a: seq<Segment>, b: seq<Segment>, i: nat, k: nat)
    requires i <= k && forall j | i <= j < k :: Refined(collate, At(a, j), At(b, j)) == 0
    ensures RefinedFrom(collate, a, b, i) == RefinedFrom(collate, a, b, k)
    decreases k - i
  {
    hide Refined;
    if i < k { SkipTies(collate, a, b, i + 1, k); }
  }

  /** Where an older version falls behind. */
  lemma {:induction false} FirstDifference(collate: Collation, a: seq<Segment>, b: seq<Segment>, i: nat) returns (p: nat)
    requires RefinedFrom(collate, a, b, i) < 0
    ensures i <= p && (p < |a| || p < |b|) && Refined(collate, At(a, p), At(b, p)) < 0
    ensures forall j | i <= j < p :: Refined(collate, At(a, j), At(b, j)) == 0
    decreases |a| + |b| - i
  {
    hide Refined;
    if Refined(collate, At(a, i), At(b, i)) != 0 {
      p := i;
    } else {
      p := FirstDifference(collate, a, b, i + 1);
    }
  }

  lemma SelfTies(collate: Collation, o: Option<Segment>)
    requires Antisymmetric(collate)
    ensures Refined(collate, o, o) == 0
  {
    assert Sign(collate(Name(o), Name(o))) == -Sign(collate(Name(o), Name(o)));
  }

  /** A flagged zero and `ga` are no different from no segment at all; `sp` is newer. */
  lemma FillersTie(collate: Collation, o: Option<Segment>)
    requires Antisymmetric(collate)
    ensures Refined(collate, Some(Num(0, Dot, true)), o) == Refined(collate, None, o)
    ensures Refined(collate, None, o) < 0 && (o.Some? ==> WellFlagged(o.value)) ==> Refined(collate, Some(Str("ga", Dot)), o) < 0
    ensures Refined(collate, None, Some(Num(0, Dot, true))) == 0 && Refined(collate, None, Some(Str("ga", Dot))) == 0
    ensures Refined(collate, None, Some(Str("sp", Dot))) < 0
  {
    assert Rank("ga") == RELEASE_RANK && Rank("sp") == 7;
    assert Sign(collate("", "")) == -Sign(collate("", ""));
  }

  lemma BumpIsNewer(collate: Collation, x: seq<Segment>, n: nat)
    requires Antisymmetric(collate)
    ensures RefinedFrom(collate, Marked(x), Marked(Bump(x, n)), 0) < 0
  {
    hide Refined, Bump, Marked;
    var a, b, k := Marked(x), Marked(Bump(x, n)), |x| + n + 1;
    BumpMarks(x, n);
    FillersTie(collate, None);
    forall j | 0 <= j < k ensures Refined(collate, At(a, j), At(b, j)) == 0 {
      if j < |x| { SelfTies(collate, At(a, j)); }
    }
    SkipTies(collate, a, b, 0, k);
  }

  /** With zeros up to the first difference, the bumped version is still older. */
  lemma BumpIsOlder(collate: Collation, x: seq<Segment>, y: seq<Segment>, p: nat)
    requires Antisymmetric(collate) && Refined(collate, At(Marked(x), p), At(Marked(y), p)) < 0
    requires forall j | 0 <= j < p :: Refined(collate, At(Marked(x), j), At(Marked(y), j)) == 0
    ensures RefinedFrom(collate, Marked(Bump(x, if p < |x| then 0 else p - |x|)), Marked(y), 0) < 0
  {
    hide Refined, Bump;
    var n: nat := if p < |x| then 0 else p - |x|;
    var a, b, c := Marked(x), Marked(Bump(x, n)), Marked(y);
    BumpMarks(x, n);
    forall j | 0 <= j < p ensures Refined(collate, At(b, j), At(c, j)) == 0 {
      if j >= |x| { FillersTie(collate, At(c, j)); }
    }
    if p >= |x| { FillersTie(collate, At(c, p)); }
    SkipTies(collate, b, c, 0, p);
    assert Refined(collate, At(b, p), At(c, p)) < 0;
  }

  /** The order of orderly versions is dense. */
  lemma OrderlyIsDense(collate: Collation, x: seq<Segment>, y: seq<Segment>) returns (n: nat)
    requires TotalPreorder(collate) && Orderly(x) && Orderly(y) && Compare(collate, x, y) < 0
    ensures Orderly(Bump(x, n)) && Compare(collate, x, Bump(x, n)) < 0 && Compare(collate, Bump(x, n), y) < 0
  {
    hide Refined, Bump, Orderly;
    CompareIsRefined(collate, x, y, 0);
    var p := FirstDifference(collate, Marked(x), Marked(y), 0);
    n := if p < |x| then 0 else p - |x|;
    BumpIsOrderly(x, n);
    BumpIsNewer(collate, x, n);
    BumpIsOlder(collate, x, y, p);
    CompareIsRefined(collate, x, Bump(x, n), 0);
    CompareIsRefined(collate, Bump(x, n), y, 0);
  }

  lemma SpellBump(ps: seq<Piece>, n: nat) returns (version: string)
    requires ArePieces(ps) && (ps != [] ==> ps[0].1 == Dot && StartsWell(ps[0].0))
    ensures ParseMavenVersion(version) == Bump(ToSegments(ps), n)
  {
    hide ParseMavenVersion, IsPiece, ToSegment;
    var tail := ZeroPieces(n) + [("ga", Dot), ("sp", Dot)];
    ZeroIsPiece();
    PlainWord("ga", Dot);
    PlainWord("sp", Dot);
    version := ReplaceTail(ps, |ps|, tail);
    assert ToSegments(tail) == Zeros(n) + [Str("ga", Dot), Str("sp", Dot)];
    assert ToSegments(ps)[..|ps|] == ToSegments(ps);
  }

  /** So is that of orderly version texts, and the text between is no blank. */
  lemma OrderlyTextsAreDense(collate: Collation, s: string, t: string) returns (v: string)
    requires TotalPreorder(collate) && IsOrderlyText(s) && IsOrderlyText(t) && CompareStrings(collate, s, t) < 0
    ensures IsOrderlyText(v) && ParseMavenVersion(v) != []
    ensures CompareStrings(collate, v, s) > 0 && CompareStrings(collate, v, t) < 0
  {
    hide ParseMavenVersion, Orderly, Compare, ToSegments;
    var ps := PiecesOfText(s);
    var n := OrderlyIsDense(collate, ParseMavenVersion(s), ParseMavenVersion(t));
    v := SpellBump(ps, n);
    CompareAntisymmetric(collate, ParseMavenVersion(s), ParseMavenVersion(v));
  }
}
