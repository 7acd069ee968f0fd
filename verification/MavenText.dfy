/**
 * What compareMavenVersions does with version texts (lib/maven-version.js:1-135), said of the texts
 * themselves: numbers written in decimal, words, numbered words, separators, capitals and white space.
 */
module MavenText {
  import opened Basics
  import opened Orders
  import opened MavenVersion
  import MavenOrder
  import opened MavenParse
  import opened MavenRules

  // ---- Texts ----

  const DIGITS := "0123456789"

  /** `n` written in decimal. */
  function Decimal(n: nat): (s: string)
    ensures s != ""
  {
    if n < 10 then [DIGITS[n]] else Decimal(n / 10) + [DIGITS[n % 10]]
  }

  predicate IsSeparator(c: char) { c == '.' || c == '-' }

  predicate IsWord(w: string) {
    w != "" && forall i | 0 <= i < |w| :: 'a' <= w[i] <= 'z'
  }

  predicate IsNumeral(s: string) {
    forall i | 0 <= i < |s| :: '0' <= s[i] <= '9'
  }

  predicate IsAlpha(s: string) {
    forall i | 0 <= i < |s| :: 'a' <= s[i] <= 'z'
  }

  /**
   * A text read as one qualifier: without separators or capitals, not a number, not a number with a
   * letter behind it, and not a word with a number behind it.
   */
  ghost predicate IsText(w: string) {
    && w != "" && (forall i | 0 <= i < |w| :: !IsSeparator(w[i]) && !('A' <= w[i] <= 'Z')) && !IsNumeral(w)
    && (forall k | 0 < k < |w| && IsNumeral(w[..k]) :: !('a' <= w[k] <= 'z'))
    && (forall k | 0 < k < |w| && IsAlpha(w[..k]) :: !IsNumeral(w[k..]))
  }

  predicate IsBlankChar(c: char) { c in " \t\n\r" || c == 11 as char || c == 12 as char }

  /** Where an item may stand: at the start of the text, or behind a separator. */
  predicate IsFront(b: string) {
    b == "" || (!IsBlankChar(b[0]) && IsSeparator(b[|b| - 1]))
  }

  /** What may follow an item: nothing, or a separator and more. */
  predicate IsRest(t: string) {
    t == "" || (IsSeparator(t[0]) && !IsBlankChar(t[|t| - 1]))
  }

  // ---- How they are read ----

  function Read(s: string, sep: Sep): seq<Segment> {
    ToSegments(SplitAll(Pieces(Lower(s), sep)))
  }

  lemma {:induction false} PiecesJoin(s: string, c: char, t: string, sep: Sep)
    requires IsSeparator(c)
    ensures Pieces(s + [c] + t, sep) == Pieces(s, sep) + Pieces(t, SepOf(c))
    decreases |s|
  {
    hide Pieces, Span;
    var k, u := Span(s, NotSeparator), s + [c] + t;
    SpanUnique(u, NotSeparator, k);
    PiecesAt(s, sep, k);
    PiecesAt(u, sep, k);
    assert u[..k] == s[..k];
    if k == |s| {
      assert u[k + 1..] == t && s[..k] == s;
    } else {
      assert u[k + 1..] == s[k + 1..] + [c] + t;
      PiecesJoin(s[k + 1..], c, t, SepOf(s[k]));
    }
  }

  lemma {:induction false} SplitAllJoin(ps: seq<(string, Sep)>, qs: seq<(string, Sep)>)
    ensures SplitAll(ps + qs) == SplitAll(ps) + SplitAll(qs)
  {
    hide SplitPiece;
    if ps == [] {
      assert ps + qs == qs;
    } else {
      assert (ps + qs)[1..] == ps[1..] + qs;
      SplitAllJoin(ps[1..], qs);
    }
  }

  /** A separator cuts the text in two. */
  lemma ReadJoin(s: string, c: char, t: string, sep: Sep)
    requires IsSeparator(c)
    ensures Read(s + [c] + t, sep) == Read(s, sep) + Read(t, SepOf(c))
  {
    hide Pieces, SplitAll, ToSegment;
    assert Lower(s + [c] + t) == Lower(s) + [c] + Lower(t);
    PiecesJoin(Lower(s), c, Lower(t), sep);
    SplitAllJoin(Pieces(Lower(s), sep), Pieces(Lower(t), SepOf(c)));
  }

  lemma ParseIsRead(s: string)
    requires s != "" && !IsBlankChar(s[0]) && !IsBlankChar(s[|s| - 1])
    ensures ParseMavenVersion(s) == Read(s, Dot)
  {
    TrimKeeps(s);
  }

  // ---- Numbers, words and numbered words ----

  lemma {:induction false} DecimalIsDigits(n: nat)
    ensures forall i | 0 <= i < |Decimal(n)| :: '0' <= Decimal(n)[i] <= '9'
    ensures ParseNat(Decimal(n)) == n
  {
    if n < 10 {
      assert Decimal(n)[..0] == "" && ParseNat("") == 0;
    } else {
      var s := Decimal(n);
      DecimalIsDigits(n / 10);
      assert s[..|s| - 1] == Decimal(n / 10) && s[|s| - 1] == DIGITS[n % 10];
    }
  }

  lemma ReadPiece(x: string, sep: Sep)
    requires forall i | 0 <= i < |x| :: !IsSeparator(x[i])
    requires forall i | 0 <= i < |x| :: LowerChar(x[i]) == x[i]
    ensures Read(x, sep) == ToSegments(SplitPiece((x, sep)))
  {
    hide SplitPiece, ToSegment;
    assert Lower(x) == x;
    SpanUnique(x, NotSeparator, |x|);
    assert SplitAll([(x, sep)]) == SplitPiece((x, sep)) + SplitAll([(x, sep)][1..]);
  }

  lemma ReadNumber(n: nat, sep: Sep)
    ensures Read(Decimal(n), sep) == [Num(n, sep, false)]
  {
    var s := Decimal(n);
    DecimalIsDigits(n);
    ReadPiece(s, sep);
    SpanUnique(s, IsDigit, |s|);
    hide Decimal, ParseNat;
    assert ToSegments([(s, sep)]) == [ToSegment((s, sep))];
  }

  lemma ReadText(w: string, sep: Sep)
    requires IsText(w)
    ensures Read(w, sep) == [Str(w, sep)]
  {
    ReadPiece(w, sep);
    TextStaysWhole(w, sep);
    TextIsQualifier(w, sep);
    hide IsText, SplitPiece, ToSegment;
    assert ToSegments([(w, sep)]) == [ToSegment((w, sep))];
  }

  lemma TextStaysWhole(w: string, sep: Sep)
    requires IsText(w)
    ensures SplitPiece((w, sep)) == [(w, sep)]
  {
    var k := Span(w, IsDigit);
    hide Span;
    assert IsNumeral(w[..k]);
  }

  lemma TextIsQualifier(w: string, sep: Sep)
    requires IsText(w)
    ensures ToSegment((w, sep)) == Str(w, sep)
  {
    var k, l := Span(w, IsDigit), Span(w, IsLetter);
    var tail := w[l..];
    assert k == |w| ==> IsNumeral(w);
    assert IsAlpha(w[..l]) && (Span(tail, IsDigit) == |tail| ==> IsNumeral(tail));
    hide Span, ParseNat;
  }

  lemma WordIsText(w: string)
    requires IsWord(w)
    ensures IsText(w) && IsItem(w)
  {
    assert 'a' <= w[0] <= 'z' && 'a' <= w[|w| - 1] <= 'z';
    forall k | 0 < k < |w| ensures !IsNumeral(w[..k]) && !IsNumeral(w[k..]) { assert w[..k][0] == w[0] && w[k..][0] == w[k]; }
  }

  lemma ReadNumbered(w: string, n: nat, sep: Sep)
    requires IsWord(w)
    ensures Read(w + Decimal(n), sep) == [QualNum(w, n, sep)]
  {
    var d := Decimal(n);
    var x := w + d;
    DecimalIsDigits(n);
    hide Decimal, ParseNat;
    forall i | 0 <= i < |x| ensures !IsSeparator(x[i]) && LowerChar(x[i]) == x[i] {
      assert x[i] == if i < |w| then w[i] else d[i - |w|];
    }
    ReadPiece(x, sep);
    SpanUnique(x, IsDigit, 0);
    assert x[|w|] == d[0];
    SpanUnique(x, IsLetter, |w|);
    assert x[|w|..] == d && x[..|w|] == w;
    SpanUnique(d, IsDigit, |d|);
    assert ToSegments([(x, sep)]) == [ToSegment((x, sep))];
  }

  // ---- An item between what stands before and behind it ----

  function SepAt(b: string): Sep {
    if b == "" then Dot else SepOf(b[|b| - 1])
  }

  function Front(b: string): seq<Segment> {
    if b == "" then [] else Read(b[..|b| - 1], Dot)
  }

  function Back(t: string): seq<Segment> {
    if t == "" then [] else Read(t[1..], SepOf(t[0]))
  }

  predicate IsItem(x: string) {
    x != "" && !IsBlankChar(x[0]) && !IsBlankChar(x[|x| - 1])
  }

  lemma ReadBack(x: string, t: string, sep: Sep)
    requires t == "" || IsSeparator(t[0])
    ensures Read(x + t, sep) == Read(x, sep) + Back(t)
  {
    hide Read;
    if t == "" {
      assert x + t == x;
    } else {
      assert x + t == x + [t[0]] + t[1..];
      ReadJoin(x, t[0], t[1..], sep);
    }
  }

  lemma ReadFront(b: string, x: string)
    requires b != "" && IsSeparator(b[|b| - 1])
    ensures Read(b + x, Dot) == Front(b) + Read(x, SepAt(b))
  {
    hide Read;
    var k := |b| - 1;
    assert b + x == b[..k] + [b[k]] + x;
    ReadJoin(b[..k], b[k], x, Dot);
  }

  lemma ParseAt(b: string, x: string, t: string)
    requires IsFront(b) && IsItem(x) && IsRest(t)
    ensures ParseMavenVersion(b + x + t) == Front(b) + Read(x, SepAt(b)) + Back(t)
  {
    hide Read, ParseMavenVersion;
    var s := b + x + t;
    assert s[0] == if b != "" then b[0] else x[0];
    assert s[|s| - 1] == if t != "" then t[|t| - 1] else x[|x| - 1];
    ParseIsRead(s);
    ReadBack(x, t, SepAt(b));
    assert s == b + (x + t);
    hide Front, Back, SepAt, IsItem, IsBlankChar;
    if b == "" {
      ReadNoFront(x + t);
    } else {
      ReadFront(b, x + t);
      assert Front(b) + (Read(x, SepAt(b)) + Back(t)) == Front(b) + Read(x, SepAt(b)) + Back(t);
    }
  }

  lemma ReadNoFront(x: string)
    ensures Front("") == [] && SepAt("") == Dot && "" + x == x && Front("") + Read(x, Dot) == Read(x, Dot)
  {
    hide Read;
  }

  lemma DecimalIsItem(n: nat)
    ensures IsItem(Decimal(n))
  {
    DecimalIsDigits(n);
    var s := Decimal(n);
    assert '0' <= s[0] <= '9' && '0' <= s[|s| - 1] <= '9';
  }

  lemma NumberedIsItem(w: string, n: nat)
    requires IsWord(w)
    ensures IsItem(w) && IsItem(w + Decimal(n))
  {
    DecimalIsItem(n);
  }

  // ---- Numbers ----

  /** Behind the same text, the greater number makes the newer version, whatever follows: 1.10 > 1.9. */
  lemma NumbersDecideTexts(collate: Collation, b: string, m: nat, t: string, n: nat, u: string)
    requires Antisymmetric(collate) && IsFront(b) && IsRest(t) && IsRest(u) && m != n
    ensures CompareStrings(collate, b + Decimal(m) + t, b + Decimal(n) + u) == if m > n then 1 else -1
  {
    DecimalIsItem(m);
    DecimalIsItem(n);
    ParseAt(b, Decimal(m), t);
    ParseAt(b, Decimal(n), u);
    ReadNumber(m, SepAt(b));
    ReadNumber(n, SepAt(b));
    hide ParseMavenVersion, Read, Decimal;
    var x, y := Num(m, SepAt(b), false), Num(n, SepAt(b), false);
    FirstDifferenceDecides(collate, Front(b), x, Back(t), y, Back(u));
  }

  /** Two numbers compare as numbers, at the start of a version or behind the same text. */
  lemma NumbersAsTexts(collate: Collation, b: string, m: nat, n: nat)
    requires Antisymmetric(collate) && IsFront(b)
    ensures CompareStrings(collate, b + Decimal(m), b + Decimal(n)) == Sign(m - n)
  {
    hide CompareStrings, Decimal;
    if m == n {
      SameText(collate, b + Decimal(m));
    } else {
      NumbersDecideTexts(collate, b, m, "", n, "");
      assert b + Decimal(m) + "" == b + Decimal(m) && b + Decimal(n) + "" == b + Decimal(n);
    }
  }

  lemma SameText(collate: Collation, s: string)
    requires Antisymmetric(collate)
    ensures CompareStrings(collate, s, s) == 0
  {
    hide ParseMavenVersion;
    var x := ParseMavenVersion(s);
    MavenOrder.SharedPrefix(collate, x, x, 0, |x|);
  }

  lemma TenIsNewerThanNine(collate: Collation)
    requires Antisymmetric(collate)
    ensures CompareStrings(collate, "1.10", "1.9") == 1
  {
    hide CompareStrings;
    assert Decimal(1) == "1" && Decimal(10) == Decimal(1) + "0" && Decimal(9) == "9";
    assert "1." + Decimal(10) == "1.10" && "1." + Decimal(9) == "1.9";
    NumbersAsTexts(collate, "1.", 10, 9);
  }

  /** A number after a dot is newer than any number after a dash, zero aside: 1.1 > 1-9. */
  lemma DotBeatsDashTexts(collate: Collation, b: string, m: nat, t: string, n: nat, u: string)
    requires Antisymmetric(collate) && b != "" && !IsBlankChar(b[0]) && IsRest(t) && IsRest(u) && m > 0 && n > 0
    ensures CompareStrings(collate, b + "." + Decimal(m) + t, b + "-" + Decimal(n) + u) == 1
  {
    DecimalIsItem(m);
    DecimalIsItem(n);
    ParseAt(b + ".", Decimal(m), t);
    ParseAt(b + "-", Decimal(n), u);
    ReadNumber(m, Dot);
    ReadNumber(n, Dash);
    hide ParseMavenVersion, Read, Decimal;
    assert (b + ".")[..|b|] == b && (b + "-")[..|b|] == b;
    DotBeatsDash(collate, Read(b, Dot), m, Back(t), n, Back(u));
  }

  /** A number that counts is newer than any word in its place: 1.0.1 > 1.0-sp. */
  lemma NumberBeatsWordTexts(collate: Collation, b: string, c: string, n: nat, t: string, d: string, w: string, u: string)
    requires Antisymmetric(collate) && b != "" && !IsBlankChar(b[0]) && c in {".", "-"} && d in {".", "-"}
    requires IsRest(t) && IsRest(u) && n > 0 && IsText(w) && IsItem(w)
    ensures CompareStrings(collate, b + c + Decimal(n) + t, b + d + w + u) == 1
  {
    DecimalIsItem(n);
    ParseAt(b + c, Decimal(n), t);
    ParseAt(b + d, w, u);
    ReadNumber(n, SepAt(b + c));
    ReadText(w, SepAt(b + d));
    hide ParseMavenVersion, Read, Decimal, IsText, IsFront, IsItem, IsRest;
    assert (b + c)[..|b|] == b && (b + d)[..|b|] == b;
    assert Front(b + c) == Read(b, Dot) == Front(b + d);
    hide Front;
    NumberBeatsQualifier(collate, Read(b, Dot), n, Back(t), Str(w, SepAt(b + d)), Back(u), SepAt(b + c));
  }

  // ---- Words ----

  /** The words before the release, oldest first. */
  const LADDER := ["alpha", "beta", "milestone", "rc", "snapshot"]

  predicate IsKnown(w: string) {
    w in LADDER || w in {"a", "b", "m", "cr", "ga", "final", "release", "sp"}
  }

  /** What a word is short for. */
  function Meaning(w: string): string {
    if w == "a" then "alpha" else if w == "b" then "beta" else if w == "m" then "milestone" else if w == "cr" then "rc" else w
  }

  lemma RanksOfLadder()
    ensures forall i | 0 <= i < |LADDER| :: Rank(LADDER[i]) == i + 1 && IsWord(LADDER[i])
  {
    assert LADDER[0] == "alpha" && LADDER[1] == "beta" && LADDER[2] == "milestone" && LADDER[3] == "rc" && LADDER[4] == "snapshot";
  }

  lemma RanksOfWords()
    ensures forall i | 0 <= i < |LADDER| :: Rank(LADDER[i]) == i + 1 && IsWord(LADDER[i])
    ensures Rank("sp") == 7 && Rank("ga") == 6 && Rank("final") == 6 && Rank("release") == 6 && RELEASE_RANK == 6 && UNKNOWN_RANK == 8
    ensures forall w :: Rank(Meaning(w)) == Rank(w)
    ensures forall w | w != "" && !IsKnown(w) :: Rank(w) == UNKNOWN_RANK
  {
    RanksOfLadder();
    hide LADDER;
    UnknownIsLast();
  }

  lemma UnknownIsLast()
    ensures forall w | w != "" && !IsKnown(w) :: Rank(w) == UNKNOWN_RANK
  {
    forall w | w != "" && !IsKnown(w) ensures Rank(w) == UNKNOWN_RANK {
      assert LADDER[0] == "alpha" && LADDER[1] == "beta" && LADDER[2] == "milestone" && LADDER[3] == "rc" && LADDER[4] == "snapshot";
    }
  }

  lemma TextsParsed(collate: Collation, b: string, w: string, v: string)
    requires Antisymmetric(collate) && IsFront(b) && IsText(w) && IsItem(w) && IsText(v) && IsItem(v)
    ensures CompareStrings(collate, b + w, b + v) == Sign(CompareQualifiers(collate, w, v))
  {
    hide ParseMavenVersion, IsText;
    TextParsed(b, w);
    TextParsed(b, v);
    var p := Front(b);
    assert With(p, w, SepAt(b)) == p + [Str(w, SepAt(b))] + [] && With(p, v, SepAt(b)) == p + [Str(v, SepAt(b))] + [];
    if Rank(w) != Rank(v) {
      WordsByRank(collate, p, w, v, SepAt(b));
    } else if Rank(w) == UNKNOWN_RANK {
      UnknownWordsByText(collate, p, w, v, SepAt(b));
    } else {
      SameRankTies(collate, p, w, v, SepAt(b));
    }
  }

  lemma TextParsed(b: string, w: string)
    requires IsFront(b) && IsText(w) && IsItem(w)
    ensures ParseMavenVersion(b + w) == With(Front(b), w, SepAt(b))
  {
    hide ParseMavenVersion, Read, IsText;
    ParseAt(b, w, "");
    ReadText(w, SepAt(b));
    assert b + w + "" == b + w && Back("") == [];
    assert Front(b) + [Str(w, SepAt(b))] + [] == With(Front(b), w, SepAt(b));
  }

  lemma SameRankTies(collate: Collation, p: seq<Segment>, w: string, v: string, sep: Sep)
    requires Antisymmetric(collate) && Rank(w) == Rank(v) < UNKNOWN_RANK
    ensures Compare(collate, With(p, w, sep), With(p, v, sep)) == 0
  {
    var x, y := With(p, w, sep), With(p, v, sep);
    assert x[..|p|] == p && y[..|p|] == p;
    MavenOrder.SharedPrefix(collate, x, y, 0, |p|);
    assert CompareFrom(collate, Marked(x), Marked(y), |p| + 1) == 0;
  }

  /** alpha < beta < milestone < rc < snapshot, on every version, and a word with its short form ties. */
  lemma LadderTexts(collate: Collation, b: string, i: nat, j: nat)
    requires Antisymmetric(collate) && IsFront(b) && i < |LADDER| && j < |LADDER|
    ensures CompareStrings(collate, b + LADDER[i], b + LADDER[j]) == Sign(i - j)
  {
    RanksOfWords();
    WordIsText(LADDER[i]);
    WordIsText(LADDER[j]);
    TextsParsed(collate, b, LADDER[i], LADDER[j]);
    hide CompareStrings;
  }

  lemma ShortWordsTie(collate: Collation, b: string, w: string, v: string)
    requires Antisymmetric(collate) && IsFront(b) && IsWord(w) && IsWord(v) && IsKnown(v) && Meaning(w) == Meaning(v)
    ensures CompareStrings(collate, b + w, b + v) == 0
  {
    RanksOfWords();
    WordIsText(w);
    WordIsText(v);
    TextsParsed(collate, b, w, v);
    hide CompareStrings;
    assert Rank(w) == Rank(Meaning(w)) == Rank(v) < UNKNOWN_RANK;
  }

  /** Any other text read as a qualifier is newer than the known ones, and the collation orders it among its like. */
  lemma UnknownTexts(collate: Collation, b: string, w: string, v: string)
    requires Antisymmetric(collate) && IsFront(b) && IsText(w) && IsItem(w) && IsText(v) && IsItem(v) && !IsKnown(w)
    ensures CompareStrings(collate, b + w, b + v) == if IsKnown(v) then 1 else Sign(collate(w, v))
  {
    hide IsText, CompareStrings;
    TextsParsed(collate, b, w, v);
    RanksOfWords();
    if IsKnown(v) { KnownIsRanked(v); }
  }

  lemma KnownIsRanked(v: string)
    requires IsKnown(v)
    ensures Rank(v) < UNKNOWN_RANK
  {
  }

  /** snapshot and what is older stand before the bare release, ga, final and release tie with it, all else is newer. */
  lemma WordAgainstReleaseTexts(collate: Collation, b: string, c: string, w: string)
    requires Antisymmetric(collate) && IsItem(b) && c in {".", "-"} && IsText(w) && IsItem(w)
    ensures CompareStrings(collate, b + c + w, b) ==
            if Meaning(w) in LADDER then -1 else if w in {"ga", "final", "release"} then 0 else 1
  {
    TextParsed(b + c, w);
    ParseIsRead(b);
    assert (b + c)[..|b|] == b;
    hide ParseMavenVersion;
    QualifierAgainstRelease(collate, Read(b, Dot), Str(w, SepAt(b + c)));
    RankAgainstRelease(w);
  }

  /** An item left empty stands for the release: newer than what the ladder names, older than any other word. */
  lemma EmptyIsRelease(collate: Collation, b: string, t: string, w: string)
    requires Antisymmetric(collate) && IsFront(b) && b != "" && IsRest(t) && IsText(w) && IsItem(w) && w !in {"ga", "final", "release"}
    ensures CompareStrings(collate, b + t, b + w) == if Meaning(w) in LADDER then 1 else -1
  {
    hide ParseMavenVersion, IsText, IsRest, IsFront, Front, Back, SepAt, Meaning;
    EmptyParsed(b, t);
    TextParsed(b, w);
    RankAgainstRelease(w);
    EmptyDecides(collate, Front(b), SepAt(b), Back(t), w);
  }

  lemma EmptyDecides(collate: Collation, p: seq<Segment>, sep: Sep, t: seq<Segment>, w: string)
    requires Antisymmetric(collate) && Rank(w) != RELEASE_RANK
    ensures Compare(collate, p + [Str("", sep)] + t, With(p, w, sep)) == Sign(RELEASE_RANK - Rank(w))
  {
    assert With(p, w, sep) == p + [Str(w, sep)] + [];
    FirstDifferenceDecides(collate, p, Str("", sep), t, Str(w, sep), []);
  }

  lemma EmptyParsed(b: string, t: string)
    requires IsFront(b) && b != "" && IsRest(t)
    ensures ParseMavenVersion(b + t) == Front(b) + [Str("", SepAt(b))] + Back(t)
  {
    hide ParseMavenVersion, Read, Front, Back, SepAt;
    assert (b + t)[|b + t| - 1] == if t == "" then b[|b| - 1] else t[|t| - 1];
    ParseIsRead(b + t);
    ReadFront(b, t);
    ReadBack("", t, SepAt(b));
    assert "" + t == t;
    ReadEmpty(SepAt(b));
    hide *;
    assert Front(b) + ([Str("", SepAt(b))] + Back(t)) == Front(b) + [Str("", SepAt(b))] + Back(t);
  }

  lemma ReadEmpty(sep: Sep)
    ensures Read("", sep) == [Str("", sep)]
  {
    ReadPiece("", sep);
    assert ToSegments([("", sep)]) == [ToSegment(("", sep))];
  }

  lemma RankAgainstRelease(w: string)
    requires w != ""
    ensures Sign(Rank(w) - RELEASE_RANK) == if Meaning(w) in LADDER then -1 else if w in {"ga", "final", "release"} then 0 else 1
  {
    RanksOfWords();
    if w == "sp" {
      assert Meaning(w) !in LADDER;
    } else if w in {"ga", "final", "release"} {
      assert Meaning(w) !in LADDER;
    } else if Meaning(w) in LADDER {
      var i :| 0 <= i < |LADDER| && LADDER[i] == Meaning(w);
    } else {
      assert !IsKnown(w);
    }
  }

  /** rc < rc1 < rc2: a numbered word comes behind the bare one, in the order of its numbers. */
  lemma NumberedTexts(collate: Collation, b: string, w: string, m: nat, n: nat)
    requires Antisymmetric(collate) && IsFront(b) && IsWord(w)
    ensures CompareStrings(collate, b + w + Decimal(m), b + w + Decimal(n)) == Sign(m - n)
    ensures CompareStrings(collate, b + w, b + w + Decimal(n)) == -Sign(n)
  {
    NumberedParsed(b, w, m);
    NumberedParsed(b, w, n);
    WordIsText(w);
    TextParsed(b, w);
    hide ParseMavenVersion, Decimal;
    NumberedTies(collate, Front(b), QualNum(w, m, SepAt(b)), QualNum(w, n, SepAt(b)));
    NumberedTies(collate, Front(b), Str(w, SepAt(b)), QualNum(w, n, SepAt(b)));
  }

  lemma NumberedParsed(b: string, w: string, n: nat)
    requires IsFront(b) && IsWord(w)
    ensures ParseMavenVersion(b + w + Decimal(n)) == Front(b) + [QualNum(w, n, SepAt(b))]
  {
    hide ParseMavenVersion, Read, Decimal, IsWord, IsFront, IsItem;
    NumberedIsItem(w, n);
    ParseAt(b, w + Decimal(n), "");
    ReadNumbered(w, n, SepAt(b));
    assert b + (w + Decimal(n)) + "" == b + w + Decimal(n) && Back("") == [];
  }

  lemma NumberedTies(collate: Collation, p: seq<Segment>, x: Segment, y: Segment)
    requires Antisymmetric(collate) && !x.Num? && !y.Num? && QualOf(x) == QualOf(y)
    ensures Compare(collate, p + [x], p + [y]) ==
            Sign((if x.QualNum? then x.num else 0) - (if y.QualNum? then y.num else 0))
  {
    var v, w := p + [x], p + [y];
    assert v[..|p|] == p && w[..|p|] == p;
    assert Sign(collate(QualOf(x), QualOf(x))) == -Sign(collate(QualOf(x), QualOf(x)));
    MavenOrder.SharedPrefix(collate, v, w, 0, |p|);
    assert CompareFrom(collate, Marked(v), Marked(w), |p| + 1) == 0;
  }

  // ---- What makes no difference ----

  predicate SameLetter(c: char, d: char) {
    c == d || ('A' <= c <= 'Z' && d as int == c as int + 32) || ('A' <= d <= 'Z' && c as int == d as int + 32)
  }

  predicate SameButCase(s: string, t: string) {
    |s| == |t| && forall i | 0 <= i < |s| :: SameLetter(s[i], t[i])
  }

  /** Capitals: 1.0.Final is 1.0.final. */
  lemma CaseNeverMatters(collate: Collation, s: string, s': string, t: string)
    requires SameButCase(s, s')
    ensures CompareStrings(collate, s, t) == CompareStrings(collate, s', t)
    ensures CompareStrings(collate, t, s) == CompareStrings(collate, t, s')
  {
    CaseKeepsTrim(s, s');
    var a, b := TrimEnd(TrimStart(s)), TrimEnd(TrimStart(s'));
    assert Lower(a) == Lower(b);
  }

  lemma {:induction false} CaseKeepsStart(s: string, t: string)
    requires SameButCase(s, t)
    ensures SameButCase(TrimStart(s), TrimStart(t))
  {
    if s != "" && IsSpace(s[0]) {
      assert SameLetter(s[0], t[0]);
      CaseKeepsStart(s[1..], t[1..]);
    } else if s != "" {
      assert SameLetter(s[0], t[0]);
    }
  }

  lemma {:induction false} CaseKeepsEnd(s: string, t: string)
    requires SameButCase(s, t)
    ensures SameButCase(TrimEnd(s), TrimEnd(t))
  {
    if s != "" {
      assert SameLetter(s[|s| - 1], t[|t| - 1]);
      if IsSpace(s[|s| - 1]) { CaseKeepsEnd(s[..|s| - 1], t[..|t| - 1]); }
    }
  }

  lemma CaseKeepsTrim(s: string, t: string)
    requires SameButCase(s, t)
    ensures SameButCase(TrimEnd(TrimStart(s)), TrimEnd(TrimStart(t)))
  {
    CaseKeepsStart(s, t);
    CaseKeepsEnd(TrimStart(s), TrimStart(t));
  }

  predicate IsBlankText(s: string) {
    forall i | 0 <= i < |s| :: IsBlankChar(s[i])
  }

  /** White space around the text. */
  lemma PaddingNeverMatters(collate: Collation, before: string, s: string, after: string, t: string)
    requires IsBlankText(before) && IsBlankText(after) && (s == "" || IsItem(s))
    ensures CompareStrings(collate, before + s + after, t) == CompareStrings(collate, s, t)
    ensures CompareStrings(collate, t, before + s + after) == CompareStrings(collate, t, s)
  {
    PaddingTrims(before, s, after);
    if s != "" { TrimKeeps(s); }
  }

  lemma PaddingTrims(before: string, s: string, after: string)
    requires IsBlankText(before) && IsBlankText(after) && (s == "" || IsItem(s))
    ensures TrimEnd(TrimStart(before + s + after)) == s
  {
    assert before + s + after == before + (s + after);
    StartPad(before, s + after);
    if s == "" {
      StartPad(after, "");
      assert s + after == after + "";
    } else {
      TrimKeeps(s);
      assert (s + after)[0] == s[0] && TrimStart(s + after) == s + after;
      EndPad(s, after);
      assert TrimStart(s) == s;
    }
  }

  lemma {:induction false} StartPad(pad: string, s: string)
    requires IsBlankText(pad)
    ensures TrimStart(pad + s) == TrimStart(s)
  {
    if pad == "" {
      assert pad + s == s;
    } else {
      assert (pad + s)[1..] == pad[1..] + s && IsBlankChar(pad[0]);
      StartPad(pad[1..], s);
    }
  }

  lemma {:induction false} EndPad(s: string, pad: string)
    requires IsBlankText(pad)
    ensures TrimEnd(s + pad) == TrimEnd(s)
  {
    if pad == "" {
      assert s + pad == s;
    } else {
      var t := s + pad;
      assert t[..|t| - 1] == s + pad[..|pad| - 1] && IsBlankChar(pad[|pad| - 1]);
      EndPad(s, pad[..|pad| - 1]);
    }
  }

  /** A dash between a number and the letter behind it: 1.0a1 is 1.0-a1. */
  lemma DigitLetterIsDash(collate: Collation, b: string, n: nat, r: string, t: string)
    requires IsFront(b) && r != "" && 'a' <= r[0] <= 'z' && !IsBlankChar(r[|r| - 1])
    ensures CompareStrings(collate, b + Decimal(n) + r, t) == CompareStrings(collate, b + Decimal(n) + "-" + r, t)
    ensures CompareStrings(collate, t, b + Decimal(n) + r) == CompareStrings(collate, t, b + Decimal(n) + "-" + r)
  {
    hide CompareStrings, Decimal, IsBlankChar;
    DigitLetterParses(b, Decimal(n), n, r);
    SameParse(collate, b + Decimal(n) + r, b + Decimal(n) + "-" + r, t);
  }

  lemma SameParse(collate: Collation, s: string, s': string, t: string)
    requires ParseMavenVersion(s) == ParseMavenVersion(s')
    ensures CompareStrings(collate, s, t) == CompareStrings(collate, s', t) && CompareStrings(collate, t, s) == CompareStrings(collate, t, s')
  {
    hide ParseMavenVersion;
  }

  lemma DigitLetterParses(b: string, d: string, n: nat, r: string)
    requires IsFront(b) && r != "" && 'a' <= r[0] <= 'z' && !IsBlankChar(r[|r| - 1]) && d == Decimal(n)
    ensures ParseMavenVersion(b + d + r) == ParseMavenVersion(b + d + "-" + r)
  {
    hide ParseMavenVersion, Read, Decimal, Front, SepAt, IsFront;
    DecimalIsItem(n);
    assert IsItem(d + r) && IsRest("-" + r);
    ParseAt(b, d + r, "");
    ParseAt(b, d, "-" + r);
    GluedReads(n, r, SepAt(b));
    BackOfDash(r);
    hide Back, IsItem, IsRest;
    assert b + (d + r) + "" == b + d + r && b + d + ("-" + r) == b + d + "-" + r;
    assert Front(b) + (Read(d, SepAt(b)) + Read(r, Dash)) + [] == Front(b) + Read(d, SepAt(b)) + Read(r, Dash);
  }

  lemma BackOfDash(r: string)
    ensures Back("") == [] && Back("-" + r) == Read(r, Dash)
  {
    hide Read;
    assert ("-" + r)[1..] == r;
  }

  lemma GluedReads(n: nat, r: string, sep: Sep)
    requires r != "" && 'a' <= r[0] <= 'z'
    ensures Read(Decimal(n) + r, sep) == Read(Decimal(n), sep) + Read(r, Dash)
  {
    var d, q := Decimal(n), Lower(r);
    DecimalIsDigits(n);
    hide Decimal, ParseNat, Pieces, Span, SplitPiece, ToSegment;
    assert Lower(d) == d && Lower(d + r) == d + q && q[0] == r[0];
    var k := Span(q, NotSeparator);
    GluedPieces(d, q, sep, k);
    GluedSplit(d, q[..k], sep);
    DigitsAlone(d, sep);
    assert SplitAll(Pieces(d + q, sep)) == [(d, sep)] + SplitAll(Pieces(q, Dash)) by { GluedAll(d, q, sep, k); }
    assert ToSegments([(d, sep)] + SplitAll(Pieces(q, Dash))) == ToSegments([(d, sep)]) + ToSegments(SplitAll(Pieces(q, Dash)));
  }

  predicate AreDigits(d: string) {
    d != "" && forall i | 0 <= i < |d| :: '0' <= d[i] <= '9'
  }

  lemma DigitsAlone(d: string, sep: Sep)
    requires AreDigits(d)
    ensures SplitAll(Pieces(d, sep)) == [(d, sep)]
  {
    SpanUnique(d, NotSeparator, |d|);
    SpanUnique(d, IsDigit, |d|);
    assert [(d, sep)][1..] == [];
  }

  lemma GluedPieces(d: string, q: string, sep: Sep, k: nat)
    requires AreDigits(d) && q != "" && k == Span(q, NotSeparator)
    ensures Pieces(d + q, sep) == [(d + q[..k], sep)] + Pieces(q, Dash)[1..]
    ensures Pieces(q, Dash) == [(q[..k], Dash)] + Pieces(q, Dash)[1..]
  {
    hide Span, Pieces;
    var u := d + q;
    assert forall i | 0 <= i < |d| + k :: u[i] == if i < |d| then d[i] else q[i - |d|];
    SpanUnique(u, NotSeparator, |d| + k);
    PiecesAt(u, sep, |d| + k);
    PiecesAt(q, Dash, k);
    assert u[..|d| + k] == d + q[..k];
    if k < |q| {
      assert u[|d| + k + 1..] == q[k + 1..] && u[|d| + k] == q[k];
    } else {
      assert q[..k] == q;
    }
  }

  lemma GluedSplit(d: string, x: string, sep: Sep)
    requires AreDigits(d) && x != "" && 'a' <= x[0] <= 'z'
    ensures SplitPiece((d + x, sep)) == [(d, sep), (x, Dash)] && SplitPiece((x, Dash)) == [(x, Dash)]
  {
    var u := d + x;
    assert u[|d|] == x[0] && u[..|d|] == d && u[|d|..] == x;
    SpanUnique(u, IsDigit, |d|);
    SpanUnique(x, IsDigit, 0);
  }

  lemma GluedAll(d: string, q: string, sep: Sep, k: nat)
    requires k <= |q| && Pieces(d + q, sep) == [(d + q[..k], sep)] + Pieces(q, Dash)[1..]
    requires Pieces(q, Dash) == [(q[..k], Dash)] + Pieces(q, Dash)[1..]
    requires SplitPiece((d + q[..k], sep)) == [(d, sep), (q[..k], Dash)] && SplitPiece((q[..k], Dash)) == [(q[..k], Dash)]
    ensures SplitAll(Pieces(d + q, sep)) == [(d, sep)] + SplitAll(Pieces(q, Dash))
  {
    hide Pieces, SplitPiece;
    var rest := Pieces(q, Dash)[1..];
    SplitAllJoin([(d + q[..k], sep)], rest);
    SplitAllJoin([(q[..k], Dash)], rest);
    assert [(d + q[..k], sep)][1..] == [] && [(q[..k], Dash)][1..] == [];
  }
}
