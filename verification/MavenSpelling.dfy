/**
 * Exactness of the Maven order on version texts (lib/maven-version.js:28-135): what is cut out of
 * a parsed version can be spelled, so an unorderly text stands in a cycle with two other texts.
 */
module MavenSpelling {
  import opened Basics
  import opened Orders
  import opened MavenVersion
  import opened MavenOrder
  import opened MavenParse

  type Piece = (string, Sep)

  // ---- Spelling a list of pieces ----

  predicate IsClean(s: string) {
    forall i | 0 <= i < |s| :: NotSeparator(s[i]) && LowerChar(s[i]) == s[i]
  }

  /** A piece as the parser leaves it: no separator, no capital, nothing left to split off. */
  predicate IsPiece(p: Piece) {
    IsClean(p.0) && SplitPiece(p) == [p]
  }

  predicate ArePieces(ps: seq<Piece>) {
    forall i | 0 <= i < |ps| :: IsPiece(ps[i])
  }

  function SepChar(sep: Sep): char {
    if sep == Dot then '.' else '-'
  }

  /** The pieces, each behind its separator, the first one without. */
  function Spell(ps: seq<Piece>): string
    requires ps != []
  {
    if |ps| == 1 then ps[0].0 else ps[0].0 + [SepChar(ps[1].1)] + Spell(ps[1..])
  }

  lemma {:induction false} PiecesOfSpelled(ps: seq<Piece>)
    requires ps != [] && ArePieces(ps)
    ensures Pieces(Spell(ps), ps[0].1) == ps
  {
    hide Pieces, Span, SplitPiece;
    var s, k := Spell(ps), |ps[0].0|;
    SpanUnique(s, NotSeparator, k);
    PiecesAt(s, ps[0].1, k);
    if |ps| == 1 {
      assert ps == [ps[0]];
    } else {
      PiecesOfSpelled(ps[1..]);
      assert s[..k] == ps[0].0 && s[k + 1..] == Spell(ps[1..]);
      assert ps == [ps[0]] + ps[1..];
    }
  }

  lemma {:induction false} SplitAllOfPieces(ps: seq<Piece>)
    requires ArePieces(ps)
    ensures SplitAll(ps) == ps
  {
    hide SplitPiece;
    if ps != [] {
      SplitAllOfPieces(ps[1..]);
      assert ps == [ps[0]] + ps[1..];
    }
  }

  lemma {:induction false} SpelledIsLower(ps: seq<Piece>)
    requires ps != [] && ArePieces(ps)
    ensures forall i | 0 <= i < |Spell(ps)| :: LowerChar(Spell(ps)[i]) == Spell(ps)[i]
  {
    hide SplitPiece;
    if |ps| > 1 { SpelledIsLower(ps[1..]); }
  }

  lemma {:induction false} SpelledEnds(ps: seq<Piece>)
    requires ps != [] && ps[|ps| - 1].0 != ""
    ensures var last := ps[|ps| - 1].0;
            |Spell(ps)| >= |last| && Spell(ps)[|Spell(ps)| - 1] == last[|last| - 1]
  {
    if |ps| > 1 { SpelledEnds(ps[1..]); }
  }

  predicate StartsWell(s: string) {
    s != "" ==> !IsSpace(s[0])
  }

  predicate EndsWell(s: string) {
    s != "" && !IsSpace(s[|s| - 1])
  }

  lemma ParseOfSpelled(ps: seq<Piece>)
    requires ps != [] && ArePieces(ps)
    requires ps[0].1 == Dot && StartsWell(ps[0].0) && EndsWell(ps[|ps| - 1].0)
    ensures ParseMavenVersion(Spell(ps)) == ToSegments(ps)
  {
    hide Pieces, SplitAll, SplitPiece, ToSegments, TrimStart, TrimEnd;
    var s := Spell(ps);
    SpelledEnds(ps);
    assert IsTrimmed(s);
    TrimKeeps(s);
    SpelledIsLower(ps);
    assert MavenParse.Lower(s) == s;
    PiecesOfSpelled(ps);
    SplitAllOfPieces(ps);
  }

  // ---- The pieces of a text ----

  lemma {:induction false} PiecesAreClean(s: string, sep: Sep)
    requires forall i | 0 <= i < |s| :: LowerChar(s[i]) == s[i]
    ensures var ps := Pieces(s, sep);
            ps != [] && ps[0].1 == sep && ps[0].0 <= s && forall i | 0 <= i < |ps| :: IsClean(ps[i].0)
    decreases |s|
  {
    var k := Span(s, NotSeparator);
    if k < |s| { PiecesAreClean(s[k + 1..], SepOf(s[k])); }
  }

  lemma SplitIsPieces(p: Piece)
    requires IsClean(p.0)
    ensures ArePieces(SplitPiece(p))
    ensures SplitPiece(p) != [] && SplitPiece(p)[0].1 == p.1 && SplitPiece(p)[0].0 <= p.0
  {
    var k := Span(p.0, IsDigit);
    if 0 < k < |p.0| && IsLetter(p.0[k]) {
      var digits, rest := p.0[..k], p.0[k..];
      SpanUnique(digits, IsDigit, k);
      SpanUnique(rest, IsDigit, 0);
      assert IsPiece((digits, p.1)) && IsPiece((rest, Dash));
    }
  }

  lemma {:induction false} SplitAllIsPieces(ps: seq<Piece>)
    requires forall i | 0 <= i < |ps| :: IsClean(ps[i].0)
    ensures ArePieces(SplitAll(ps))
    ensures ps != [] ==> SplitAll(ps) != [] && SplitAll(ps)[0].1 == ps[0].1 && SplitAll(ps)[0].0 <= ps[0].0
  {
    hide SplitPiece, IsClean;
    if ps != [] {
      SplitIsPieces(ps[0]);
      SplitAllIsPieces(ps[1..]);
    }
  }

  lemma {:induction false} TrimmedStart(s: string)
    ensures TrimStart(s) != "" ==> !IsSpace(TrimStart(s)[0])
  {
    if s != "" { TrimmedStart(s[1..]); }
  }

  lemma {:induction false} TrimmedEnd(s: string)
    ensures TrimEnd(s) <= s
  {
    if s != "" { TrimmedEnd(s[..|s| - 1]); }
  }

  /** Every version text has a list of pieces behind its segments. */
  lemma PiecesOfText(version: string) returns (ps: seq<Piece>)
    ensures ParseMavenVersion(version) == ToSegments(ps) && ArePieces(ps)
    ensures ps != [] ==> ps[0].1 == Dot && StartsWell(ps[0].0)
  {
    hide Pieces, SplitAll, SplitPiece, IsClean;
    var original := TrimEnd(TrimStart(version));
    if original == "" {
      ps := [];
    } else {
      TrimmedStart(version);
      TrimmedEnd(TrimStart(version));
      var s := MavenParse.Lower(original);
      PiecesAreClean(s, Dot);
      ps := SplitAll(Pieces(s, Dot));
      SplitAllIsPieces(Pieces(s, Dot));
      assert ps[0].0 != "" ==> ps[0].0[0] == s[0];
    }
  }

  /** A beginning of a version text with other pieces put behind it is a version text. */
  lemma ReplaceTail(ps: seq<Piece>, c: nat, tail: seq<Piece>) returns (version: string)
    requires ArePieces(ps) && c <= |ps| && ArePieces(tail) && tail != []
    requires ps != [] ==> ps[0].1 == Dot && StartsWell(ps[0].0)
    requires tail[0].1 == Dot && StartsWell(tail[0].0) && EndsWell(tail[|tail| - 1].0)
    ensures ParseMavenVersion(version) == ToSegments(ps)[..c] + ToSegments(tail)
  {
    hide ParseMavenVersion, IsPiece, ToSegment;
    var all := ps[..c] + tail;
    version := Spell(all);
    ParseOfSpelled(all);
    assert ToSegments(all) == ToSegments(ps)[..c] + ToSegments(tail);
  }

  // ---- A word newer than any segment that is no counted number ----

  /** A text comes before the same text with a letter behind it. */
  ghost predicate Extends(collate: Collation) {
    forall q :: collate(q, q + "z") < 0
  }

  function NewerWord(o: Option<Segment>): string {
    if o.None? || o.value.Num? || Rank(QualOf(o.value)) <= RELEASE_RANK then "sp"
    else if Rank(QualOf(o.value)) < UNKNOWN_RANK then "z"
    else QualOf(o.value) + "z"
  }

  lemma EndsInZ(q: string)
    ensures Rank(q + "z") == UNKNOWN_RANK
    ensures ToSegment((q + "z", Dot)) == Str(q + "z", Dot)
  {
    var w := q + "z";
    var last := w[|w| - 1];
    assert last == 'z';
    assert w != "a" && w != "b" && w != "m" && w != "rc" && w != "cr" && w != "ga" && w != "sp";
    assert w != "alpha" && w != "beta" && w != "milestone" && w != "snapshot" && w != "final" && w != "release";
    var tail := w[Span(w, IsLetter)..];
    assert tail != "" ==> tail[|tail| - 1] == 'z';
  }

  lemma PlainWord(w: string, sep: Sep)
    requires w != "" && forall i | 0 <= i < |w| :: IsLetter(w[i])
    ensures IsPiece((w, sep)) && EndsWell(w) && ToSegment((w, sep)) == Str(w, sep)
  {
    SpanUnique(w, IsDigit, 0);
    SpanUnique(w, IsLetter, |w|);
  }

  lemma LongerPiece(p: Piece)
    requires IsPiece(p) && ToSegment(p).Str?
    ensures IsPiece((p.0 + "z", Dot)) && EndsWell(p.0 + "z")
  {
    var k, w := Span(p.0, IsDigit), p.0 + "z";
    SpanUnique(w, IsDigit, k);
    assert w[|w| - 1] == 'z';
  }

  /** The newer word can be spelled when the segment was read from a text. */
  lemma NewerWordIsPiece(o: Option<Segment>, p: Piece)
    requires o.Some? ==> IsPiece(p) && (o.value.Num? || o.value == ToSegment(p))
    ensures var w := NewerWord(o);
            && IsPiece((w, Dot)) && EndsWell(w) && ToSegment((w, Dot)) == Str(w, Dot)
  {
    hide IsPiece, EndsWell;
    if o.None? || o.value.Num? || Rank(QualOf(o.value)) < UNKNOWN_RANK {
      PlainWord("sp", Dot);
      PlainWord("z", Dot);
    } else {
      var q := QualOf(o.value);
      EndsInZ(q);
      if o.value.Str? { LongerPiece(p); } else { PlainWord(q + "z", Dot); }
    }
  }

  lemma NewerWordTops(collate: Collation, o: Option<Segment>)
    requires Extends(collate) && !Counted(o) && (o.Some? ==> WellFlagged(o.value))
    ensures Tops(collate, Str(NewerWord(o), Dot), o)
  {
    assert Rank("sp") == 7 && Rank("z") == UNKNOWN_RANK;
    if o.Some? && !o.value.Num? {
      EndsInZ(QualOf(o.value));
      assert collate(QualOf(o.value), QualOf(o.value) + "z") < 0;
    }
  }

  // ---- The cycle, on texts ----

  predicate IsOrderlyText(version: string) {
    Orderly(ParseMavenVersion(version))
  }

  function TextComparator(collate: Collation): (string, string) -> int {
    (a: string, b: string) => CompareStrings(collate, a, b)
  }

  function ZeroPieces(n: nat): (z: seq<Piece>)
    ensures |z| == n && forall i | 0 <= i < n :: z[i] == ("0", Dot)
  {
    seq(n, _ => ("0", Dot))
  }

  lemma SpellHigher(ps: seq<Piece>, c: nat, i: nat, w: string) returns (version: string)
    requires ArePieces(ps) && c <= i < |ps|
    requires ps[0].1 == Dot && StartsWell(ps[0].0)
    requires IsPiece((w, Dot)) && EndsWell(w) && ToSegment((w, Dot)) == Str(w, Dot)
    ensures ParseMavenVersion(version) == Higher(ToSegments(ps), c, i, Str(w, Dot))
  {
    hide ParseMavenVersion, IsPiece;
    var n := i - c + 1;
    var tail := ZeroPieces(n) + [(w, Dot)];
    SegmentsAppendZero([]);
    ZeroIsPiece();
    version := ReplaceTail(ps, c, tail);
    assert [("0", Dot)][0] == ("0", Dot);
    assert ToSegments(tail) == Zeros(n) + [Str(w, Dot)];
  }

  lemma ZeroIsPiece()
    ensures IsPiece(("0", Dot)) && ToSegment(("0", Dot)) == Num(0, Dot, false)
  {
    SpanUnique("0", IsDigit, 1);
    assert "0"[..0] == "";
  }

  lemma SpellLower(ps: seq<Piece>, c: nat, w: string) returns (version: string)
    requires ArePieces(ps) && c < |ps|
    requires ps[0].1 == Dot && StartsWell(ps[0].0)
    requires IsPiece((w, Dot)) && EndsWell(w) && ToSegment((w, Dot)) == Str(w, Dot)
    ensures ParseMavenVersion(version) == MavenOrder.Lower(ToSegments(ps), c, Str(w, Dot))
  {
    hide ParseMavenVersion, IsPiece;
    var gap := if ToSegments(ps)[c].Num? then "sp" else "ga";
    PlainWord(gap, Dot);
    var tail := [(gap, Dot), (w, Dot)];
    version := ReplaceTail(ps, c, tail);
    assert ToSegments(tail) == [Str(gap, Dot), Str(w, Dot)];
  }

  /** Every text that is not orderly stands in a cycle s < t <= u < s with two orderly texts. */
  lemma TextCycleWith(collate: Collation, s: string) returns (t: string, u: string)
    requires TotalPreorder(collate) && Extends(collate) && !IsOrderlyText(s)
    ensures IsOrderlyText(t) && IsOrderlyText(u)
    ensures CompareStrings(collate, s, t) < 0 && CompareStrings(collate, t, u) <= 0 && CompareStrings(collate, u, s) < 0
  {
    hide ParseMavenVersion, Orderly, Compare, Higher, MavenOrder.Lower, IsPiece, ToSegment, Tops, StartsWell, EndsWell, Rank;
    var ps := PiecesOfText(s);
    var x := ToSegments(ps);
    var c, i := FindUnsettledRun(x);
    var next := At(Marked(x), i + 1);
    var w := NewerWord(next);
    NewerWordIsPiece(next, if i + 1 < |ps| then ps[i + 1] else ("", Dot));
    NewerWordTops(collate, next);
    t := SpellHigher(ps, c, i, w);
    u := SpellLower(ps, c, w);
    CycleThrough(collate, x, c, i, Str(w, Dot));
  }

  /** On texts, too, orderly is exactly what the order needs. */
  lemma OrderlyTextIsExact(collate: Collation, s: string)
    requires TotalPreorder(collate) && Extends(collate)
    ensures IsOrderlyText(s) <==>
            forall t, u | IsOrderlyText(t) && IsOrderlyText(u) :: ConsistentTriple(TextComparator(collate), s, t, u)
  {
    hide ParseMavenVersion, Orderly, Compare;
    if IsOrderlyText(s) {
      forall t, u | IsOrderlyText(t) && IsOrderlyText(u)
        ensures ConsistentTriple(TextComparator(collate), s, t, u)
      {
        var y, z := ParseMavenVersion(t), ParseMavenVersion(u);
        OrderlyIsExact(collate, ParseMavenVersion(s));
        assert ConsistentTriple(Comparator(collate), ParseMavenVersion(s), y, z);
      }
    } else {
      var t, u := TextCycleWith(collate, s);
      CompareAntisymmetric(collate, ParseMavenVersion(s), ParseMavenVersion(t));
      CompareAntisymmetric(collate, ParseMavenVersion(u), ParseMavenVersion(s));
      assert !ConsistentTriple(TextComparator(collate), s, t, u);
    }
  }

  /** On texts: 1 < 1-jre < 1.0-rc-1 < 1. */
  lemma TextsNotTransitive(collate: Collation)
    ensures CompareStrings(collate, "1", "1-jre") < 0
    ensures CompareStrings(collate, "1-jre", "1.0-rc-1") < 0
    ensures CompareStrings(collate, "1.0-rc-1", "1") < 0
  {
    hide ParseMavenVersion, Compare, IsPiece, ToSegment;
    OneIsPiece(Dot);
    OneIsPiece(Dash);
    ZeroIsPiece();
    PlainWord("jre", Dash);
    PlainWord("rc", Dash);
    var one, jre := [("1", Dot)], [("1", Dot), ("jre", Dash)];
    var rc := [("1", Dot), ("0", Dot), ("rc", Dash), ("1", Dash)];
    ParseOfSpelled(one);
    ParseOfSpelled(jre);
    ParseOfSpelled(rc);
    assert Spell(one) == "1" && Spell(jre) == "1-jre";
    assert rc[1..] == [("0", Dot), ("rc", Dash), ("1", Dash)] && rc[1..][1..] == [("rc", Dash), ("1", Dash)] && rc[1..][1..][1..] == [("1", Dash)];
    assert Spell(rc[1..][1..]) == "rc-1" && Spell(rc[1..]) == "0-rc-1" && Spell(rc) == "1.0-rc-1";
    assert ToSegments(one) == [Num(1, Dot, false)];
    assert ToSegments(jre) == [Num(1, Dot, false), Str("jre", Dash)];
    assert ToSegments(rc) == [Num(1, Dot, false), Num(0, Dot, false), Str("rc", Dash), Num(1, Dash, false)];
    NotTransitiveInGeneral(collate);
  }

  lemma OneIsPiece(sep: Sep)
    ensures IsPiece(("1", sep)) && ToSegment(("1", sep)) == Num(1, sep, false)
  {
    SpanUnique("1", IsDigit, 1);
    assert "1"[..0] == "";
  }
}
