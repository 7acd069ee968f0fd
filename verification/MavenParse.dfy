/**
 * lib/maven-version.js:28-52: a version string split into segments.
 *
 * Text is ASCII here: case folding and white space are those of the ASCII range.
 */
module MavenParse {
  import opened Orders
  import opened MavenVersion

  predicate IsDigit(c: char) { '0' <= c <= '9' }

  predicate IsLetter(c: char) { 'a' <= c <= 'z' }

  predicate IsSpace(c: char) { c == ' ' || '\t' <= c <= '\r' }

  predicate NotSeparator(c: char) { c != '.' && c != '-' }

  function SepOf(c: char): Sep {
    if c == '.' then Dot else Dash
  }

  function LowerChar(c: char): char {
    if 'A' <= c <= 'Z' then c - 'A' + 'a' else c
  }

  function Lower(s: string): (l: string)
    ensures |l| == |s| && forall i | 0 <= i < |s| :: l[i] == LowerChar(s[i])
  {
    seq(|s|, i requires 0 <= i < |s| => LowerChar(s[i]))
  }

  function TrimStart(s: string): string {
    if s != "" && IsSpace(s[0]) then TrimStart(s[1..]) else s
  }

  function TrimEnd(s: string): string {
    if s != "" && IsSpace(s[|s| - 1]) then TrimEnd(s[..|s| - 1]) else s
  }

  /** The length of the longest prefix of `s` all of whose characters satisfy `p`. */
  function Span(s: string, p: char -> bool): (n: nat)
    ensures n <= |s|
    ensures forall i | 0 <= i < n :: p(s[i])
    ensures n < |s| ==> !p(s[n])
  {
    if s != "" && p(s[0]) then 1 + Span(s[1..], p) else 0
  }

  /** The text between separators, each piece with the separator before it. */
  function Pieces(s: string, sep: Sep): seq<(string, Sep)>
    decreases |s|
  {
    var k := Span(s, NotSeparator);
    if k == |s| then [(s, sep)]
    else [(s[..k], sep)] + Pieces(s[k + 1..], SepOf(s[k]))
  }

  function DigitValue(c: char): nat
    requires IsDigit(c)
  {
    c as int - '0' as int
  }

  function ParseNat(s: string): nat
    requires forall i | 0 <= i < |s| :: IsDigit(s[i])
  {
    if s == "" then 0 else 10 * ParseNat(s[..|s| - 1]) + DigitValue(s[|s| - 1])
  }

  /** A digit followed by a letter is a separator too: 1.0a1 is 1.0-a1. */
  function SplitPiece(p: (string, Sep)): seq<(string, Sep)> {
    var k := Span(p.0, IsDigit);
    if 0 < k < |p.0| && IsLetter(p.0[k]) then [(p.0[..k], p.1), (p.0[k..], Dash)] else [p]
  }

  function ToSegment(p: (string, Sep)): Segment {
    var s := p.0;
    var digits := Span(s, IsDigit);
    var letters := Span(s, IsLetter);
    var tail := s[letters..];
    if s != "" && digits == |s| then
      Num(ParseNat(s), p.1, false)
    else if letters > 0 && tail != "" && Span(tail, IsDigit) == |tail| then
      QualNum(s[..letters], ParseNat(tail), p.1)
    else
      Str(s, p.1)
  }

  function SplitAll(ps: seq<(string, Sep)>): seq<(string, Sep)> {
    if ps == [] then [] else SplitPiece(ps[0]) + SplitAll(ps[1..])
  }

  function ToSegments(ps: seq<(string, Sep)>): seq<Segment> {
    seq(|ps|, i requires 0 <= i < |ps| => ToSegment(ps[i]))
  }

  function ParseMavenVersion(version: string): seq<Segment> {
    var original := TrimEnd(TrimStart(version));
    if original == "" then [] else ToSegments(SplitAll(Pieces(Lower(original), Dot)))
  }

  function CompareStrings(collate: Collation, a: string, b: string): int {
    Compare(collate, ParseMavenVersion(a), ParseMavenVersion(b))
  }

  predicate IsTrimmed(s: string) {
    s != "" && !IsSpace(s[0]) && !IsSpace(s[|s| - 1])
  }

  lemma {:induction false} PiecesAppendZero(s: string, sep: Sep)
    ensures Pieces(s + ".0", sep) == Pieces(s, sep) + [("0", Dot)]
    decreases |s|
  {
    hide Pieces, Span;
    var k := Span(s, NotSeparator);
    var t := s + ".0";
    SpanUnique(t, NotSeparator, k);
    PiecesAt(s, sep, k);
    PiecesAt(t, sep, k);
    assert t[..k] == s[..k];
    if k == |s| {
      assert t[k + 1..] == "0";
      PiecesOfZero();
      assert s[..k] == s;
    } else {
      assert t[k + 1..] == s[k + 1..] + ".0";
      PiecesAppendZero(s[k + 1..], SepOf(s[k]));
    }
  }

  lemma PiecesAt(s: string, sep: Sep, k: nat)
    requires k == Span(s, NotSeparator)
    ensures Pieces(s, sep) == PiecesFrom(s, sep, k)
  {
    hide Span;
  }

  /** The pieces of a text whose first separator stands at `k`, if it has one. */
  function PiecesFrom(s: string, sep: Sep, k: nat): seq<(string, Sep)>
    requires k <= |s|
  {
    if k == |s| then [(s, sep)] else [(s[..k], sep)] + Pieces(s[k + 1..], SepOf(s[k]))
  }

  lemma PiecesOfZero()
    ensures Pieces("0", Dot) == [("0", Dot)]
  {
    SpanUnique("0", NotSeparator, 1);
  }

  lemma SpanUnique(s: string, p: char -> bool, n: nat)
    requires n <= |s| && (forall i | 0 <= i < n :: p(s[i])) && (n < |s| ==> !p(s[n]))
    ensures Span(s, p) == n
  {
  }

  lemma {:induction false} SplitAllAppend(ps: seq<(string, Sep)>, p: (string, Sep))
    ensures SplitAll(ps + [p]) == SplitAll(ps) + SplitPiece(p)
  {
    if ps == [] {
      assert [p][1..] == [];
    } else {
      assert (ps + [p])[1..] == ps[1..] + [p];
      SplitAllAppend(ps[1..], p);
    }
  }

  lemma SegmentsAppendZero(ps: seq<(string, Sep)>)
    ensures SplitPiece(("0", Dot)) == [("0", Dot)]
    ensures ToSegments(ps + [("0", Dot)]) == ToSegments(ps) + [Num(0, Dot, false)]
  {
    SpanUnique("0", IsDigit, 1);
    assert "0"[..0] == "";
    assert ToSegment(("0", Dot)) == Num(0, Dot, false);
  }

  lemma TrimKeeps(s: string)
    requires IsTrimmed(s)
    ensures TrimEnd(TrimStart(s)) == s
  {
  }

  lemma ParseAppendZero(s: string)
    requires IsTrimmed(s)
    ensures ParseMavenVersion(s + ".0") == ParseMavenVersion(s) + [Num(0, Dot, false)]
  {
    TrimKeeps(s);
    TrimKeeps(s + ".0");
    assert Lower(s + ".0") == Lower(s) + ".0";
    PiecesAppendZero(Lower(s), Dot);
    SplitAllAppend(Pieces(Lower(s), Dot), ("0", Dot));
    SegmentsAppendZero(SplitAll(Pieces(Lower(s), Dot)));
  }

  /** 1.0 = 1.0.0 = 1, in front of every version: no comparison can see an appended ".0". */
  lemma AppendedZeroInvisible(collate: Collation, s: string, t: string)
    requires Antisymmetric(collate) && IsTrimmed(s)
    ensures CompareStrings(collate, s + ".0", t) == CompareStrings(collate, s, t)
    ensures CompareStrings(collate, t, s + ".0") == CompareStrings(collate, t, s)
  {
    ParseAppendZero(s);
    TrailingZeroInvisible(collate, ParseMavenVersion(s), ParseMavenVersion(t), Dot);
  }
}
