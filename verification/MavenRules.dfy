/**
 * The ordering rules lib/maven-version.js:1-16 and 67-111 state in words, proved of the whole
 * comparison: two versions that agree up to some point are decided by what stands there.
 */
module MavenRules {
  import opened Basics
  import opened Orders
  import opened MavenVersion
  import opened MavenOrder

  /** The first segments after a common beginning decide, if they differ. */
  lemma FirstDifferenceDecides(collate: Collation, p: seq<Segment>, x: Segment, s: seq<Segment>, y: Segment, t: seq<Segment>)
    requires Antisymmetric(collate)
    ensures var v, w := p + [x] + s, p + [y] + t;
            var c := CmpSegments(collate, Some(Marked(v)[|p|]), Some(Marked(w)[|p|]));
            c != 0 ==> Compare(collate, v, w) == Sign(c)
  {
    var v, w := p + [x] + s, p + [y] + t;
    assert v[..|p|] == p && w[..|p|] == p;
    SharedPrefix(collate, v, w, 0, |p|);
  }

  /** Numeric segments compare numerically, whatever follows them. */
  lemma NumbersDecide(collate: Collation, p: seq<Segment>, m: nat, s: seq<Segment>, n: nat, t: seq<Segment>, sep: Sep)
    requires Antisymmetric(collate) && m < n
    ensures Compare(collate, p + [Num(m, sep, false)] + s, p + [Num(n, sep, false)] + t) < 0
  {
    FirstDifferenceDecides(collate, p, Num(m, sep, false), s, Num(n, sep, false), t);
  }

  /** 1.0.1 is newer than 1.0-1: at the same place, a counted number after a dot beats one after a dash. */
  lemma DotBeatsDash(collate: Collation, p: seq<Segment>, m: nat, s: seq<Segment>, n: nat, t: seq<Segment>)
    requires Antisymmetric(collate) && m > 0 && n > 0
    ensures Compare(collate, p + [Num(m, Dot, false)] + s, p + [Num(n, Dash, false)] + t) > 0
  {
    FirstDifferenceDecides(collate, p, Num(m, Dot, false), s, Num(n, Dash, false), t);
  }

  /** A counted number is newer than any qualifier in its place. */
  lemma NumberBeatsQualifier(collate: Collation, p: seq<Segment>, n: nat, s: seq<Segment>, q: Segment, t: seq<Segment>, sep: Sep)
    requires Antisymmetric(collate) && n > 0 && !q.Num?
    ensures Compare(collate, p + [Num(n, sep, false)] + s, p + [q] + t) > 0
  {
    FirstDifferenceDecides(collate, p, Num(n, sep, false), s, q, t);
  }

  /** A trailing qualifier against the bare release, by the documented rank of the release. */
  lemma QualifierAgainstRelease(collate: Collation, p: seq<Segment>, q: Segment)
    requires Antisymmetric(collate) && !q.Num?
    ensures Compare(collate, p + [q], p) == Sign(Rank(QualOf(q)) - RELEASE_RANK)
  {
    assert (p + [q])[..|p|] == p && p[..|p|] == p;
    SharedPrefix(collate, p + [q], p, 0, |p|);
    assert Marked(p + [q])[|p|] == q;
  }

  /** A version followed by a word. */
  function With(p: seq<Segment>, word: string, sep: Sep): seq<Segment> {
    p + [Str(word, sep)]
  }

  /** alpha < beta < milestone < rc < snapshot < the release < sp < any other word, on every version. */
  lemma DocumentedOrder(collate: Collation, p: seq<Segment>, other: string, sep: Sep)
    requires Antisymmetric(collate) && Rank(other) == UNKNOWN_RANK
    ensures Compare(collate, With(p, "alpha", sep), With(p, "beta", sep)) < 0
    ensures Compare(collate, With(p, "beta", sep), With(p, "milestone", sep)) < 0
    ensures Compare(collate, With(p, "milestone", sep), With(p, "rc", sep)) < 0
    ensures Compare(collate, With(p, "rc", sep), With(p, "snapshot", sep)) < 0
    ensures Compare(collate, With(p, "snapshot", sep), p) < 0
    ensures Compare(collate, p, With(p, "sp", sep)) < 0
    ensures Compare(collate, With(p, "sp", sep), With(p, other, sep)) < 0
  {
    WordsByRank(collate, p, "alpha", "beta", sep);
    WordsByRank(collate, p, "beta", "milestone", sep);
    WordsByRank(collate, p, "milestone", "rc", sep);
    WordsByRank(collate, p, "rc", "snapshot", sep);
    WordsByRank(collate, p, "sp", other, sep);
    QualifierAgainstRelease(collate, p, Str("snapshot", sep));
    QualifierAgainstRelease(collate, p, Str("sp", sep));
    CompareAntisymmetric(collate, p, With(p, "sp", sep));
  }

  lemma WordsByRank(collate: Collation, p: seq<Segment>, q: string, r: string, sep: Sep)
    requires Antisymmetric(collate) && Rank(q) != Rank(r)
    ensures Compare(collate, With(p, q, sep), With(p, r, sep)) == Sign(Rank(q) - Rank(r))
  {
    assert p + [Str(q, sep)] + [] == With(p, q, sep) && p + [Str(r, sep)] + [] == With(p, r, sep);
    FirstDifferenceDecides(collate, p, Str(q, sep), [], Str(r, sep), []);
  }

  /** ga, final and release are the release; cr is rc, and a, b, m stand for their words. */
  lemma Synonyms(collate: Collation, p: seq<Segment>, word: string, sep: Sep)
    requires Antisymmetric(collate) && word in {"ga", "final", "release"}
    ensures Compare(collate, With(p, word, sep), p) == 0
    ensures Rank("cr") == Rank("rc") && Rank("a") == Rank("alpha") && Rank("b") == Rank("beta") && Rank("m") == Rank("milestone")
  {
    QualifierAgainstRelease(collate, p, Str(word, sep));
  }

  /** Two words the order does not know are ranked by their text. */
  lemma UnknownWordsByText(collate: Collation, p: seq<Segment>, q: string, r: string, sep: Sep)
    requires Antisymmetric(collate) && Rank(q) == UNKNOWN_RANK && Rank(r) == UNKNOWN_RANK
    ensures Compare(collate, With(p, q, sep), With(p, r, sep)) == Sign(collate(q, r))
  {
    assert p + [Str(q, sep)] + [] == With(p, q, sep) && p + [Str(r, sep)] + [] == With(p, r, sep);
    FirstDifferenceDecides(collate, p, Str(q, sep), [], Str(r, sep), []);
    if collate(q, r) == 0 {
      var v, w := With(p, q, sep), With(p, r, sep);
      assert v[..|p|] == p && w[..|p|] == p;
      SharedPrefix(collate, v, w, 0, |p|);
      assert CompareFrom(collate, Marked(v), Marked(w), |p| + 1) == 0;
    }
  }

  /** A numbered qualifier comes after the bare one and in the order of its numbers: rc < rc1 < rc2. */
  lemma NumberedQualifiers(collate: Collation, p: seq<Segment>, q: string, m: nat, n: nat, sep: Sep)
    requires Antisymmetric(collate) && 0 < m < n
    ensures Compare(collate, p + [Str(q, sep)], p + [QualNum(q, m, sep)]) < 0
    ensures Compare(collate, p + [QualNum(q, m, sep)], p + [QualNum(q, n, sep)]) < 0
  {
    assert Sign(collate(q, q)) == -Sign(collate(q, q));
    var bare, first, second := Str(q, sep), QualNum(q, m, sep), QualNum(q, n, sep);
    assert p + [bare] + [] == p + [bare] && p + [first] + [] == p + [first] && p + [second] + [] == p + [second];
    FirstDifferenceDecides(collate, p, bare, [], first, []);
    FirstDifferenceDecides(collate, p, first, [], second, []);
  }
}
