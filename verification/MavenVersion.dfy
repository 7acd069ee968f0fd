/**
 * lib/maven-version.js: how two Maven versions compare.
 *
 * A version is a sequence of segments. Two versions are compared position by position, a
 * missing segment standing for a zero that no non-zero number follows. The text order of
 * unknown qualifiers (JavaScript's localeCompare) is a parameter, `collate`.
 */
module MavenVersion {
  import opened Orders
  import opened Basics

  datatype Sep = Dot | Dash

  datatype Segment =
    | Num(value: nat, sep: Sep, zeroTail: bool)
    | QualNum(qual: string, num: nat, sep: Sep)
    | Str(text: string, sep: Sep)

  type Collation = (string, string) -> int

  const UNKNOWN_RANK := 8
  const RELEASE_RANK := 6

  function Rank(q: string): (r: nat)
    ensures 1 <= r <= UNKNOWN_RANK
  {
    if q == "alpha" || q == "a" then 1
    else if q == "beta" || q == "b" then 2
    else if q == "milestone" || q == "m" then 3
    else if q == "rc" || q == "cr" then 4
    else if q == "snapshot" then 5
    else if q == "" || q == "ga" || q == "final" || q == "release" then RELEASE_RANK
    else if q == "sp" then 7
    else UNKNOWN_RANK
  }

  function QualOf(s: Segment): string
    requires !s.Num?
  {
    if s.QualNum? then s.qual else s.text
  }

  function CompareQualifiers(collate: Collation, a: string, b: string): int {
    var d := Rank(a) - Rank(b);
    if d != 0 then d
    else if Rank(a) == UNKNOWN_RANK then collate(a, b)
    else 0
  }

  /** One position of the comparison; at least one side has a segment there. */
  function CmpSegments(collate: Collation, a: Option<Segment>, b: Option<Segment>): int
    requires a.Some? || b.Some?
  {
    if a.None? then
      if b.value.Num? then if b.value.value == 0 then 0 else -1
      else RELEASE_RANK - Rank(QualOf(b.value))
    else if b.None? then
      if a.value.Num? then if a.value.value == 0 then 0 else 1
      else Rank(QualOf(a.value)) - RELEASE_RANK
    else
      var x, y := a.value, b.value;
      if x.Num? && y.Num? then
        if x.sep != y.sep && x.value != 0 && y.value != 0 then
          if x.sep == Dot then 1 else -1
        else x.value - y.value
      else if x.Num? then
        if x.zeroTail then RELEASE_RANK - Rank(QualOf(y)) else 1
      else if y.Num? then
        if y.zeroTail then Rank(QualOf(x)) - RELEASE_RANK else -1
      else if x.QualNum? && y.QualNum? then
        var d := CompareQualifiers(collate, x.qual, y.qual);
        if d != 0 then d else x.num - y.num
      else if x.QualNum? then
        var d := CompareQualifiers(collate, x.qual, y.text);
        if d != 0 then d else x.num
      else if y.QualNum? then
        var d := CompareQualifiers(collate, x.text, y.qual);
        if d != 0 then d else 0 - y.num
      else CompareQualifiers(collate, x.text, y.text)
  }

  /** A zero behind which every number is zero as well; it counts for nothing. */
  predicate IsZeroTail(segs: seq<Segment>, i: nat)
    requires i < |segs|
  {
    && segs[i].Num? && segs[i].value == 0
    && forall j | i < j < |segs| :: segs[j].Num? ==> segs[j].value == 0
  }

  function Marked(segs: seq<Segment>): (m: seq<Segment>)
    ensures |m| == |segs|
    ensures forall i | 0 <= i < |m| ::
              m[i] == if segs[i].Num? then segs[i].(zeroTail := IsZeroTail(segs, i)) else segs[i]
  {
    seq(|segs|, i requires 0 <= i < |segs| =>
      if segs[i].Num? then segs[i].(zeroTail := IsZeroTail(segs, i)) else segs[i])
  }

  /** The backward pass that flags the trailing zeros in the segments themselves. */
  method MarkZeroTail(segs: array<Segment>)
    modifies segs
    ensures segs[..] == Marked(old(segs[..]))
  {
    ghost var was := segs[..];
    var nonZeroAfter := false;
    var i := segs.Length - 1;
    while i >= 0
      invariant -1 <= i < segs.Length
      invariant forall k | 0 <= k <= i :: segs[k] == was[k]
      invariant forall k | i < k < segs.Length :: segs[k] == Marked(was)[k]
      invariant nonZeroAfter <==> exists k | i < k < segs.Length :: was[k].Num? && was[k].value != 0
    {
      var s := segs[i];
      if s.Num? {
        segs[i] := s.(zeroTail := s.value == 0 && !nonZeroAfter);
        if s.value != 0 { nonZeroAfter := true; }
      }
      i := i - 1;
    }
  }

  function At(m: seq<Segment>, i: nat): Option<Segment> {
    if i < |m| then Some(m[i]) else None
  }

  function CompareFrom(collate: Collation, a: seq<Segment>, b: seq<Segment>, i: nat): (r: int)
    ensures -1 <= r <= 1
    decreases |a| + |b| - i
  {
    if i >= |a| && i >= |b| then 0
    else
      var c := CmpSegments(collate, At(a, i), At(b, i));
      if c != 0 then Sign(c) else CompareFrom(collate, a, b, i + 1)
  }

  function Compare(collate: Collation, a: seq<Segment>, b: seq<Segment>): (r: int)
    ensures -1 <= r <= 1
  {
    CompareFrom(collate, Marked(a), Marked(b), 0)
  }

  /** The comparison loop, over segment lists that it flags in place. */
  method CompareMavenVersions(collate: Collation, a: array<Segment>, b: array<Segment>) returns (r: int)
    requires a != b
    modifies a, b
    ensures r == Compare(collate, old(a[..]), old(b[..]))
  {
    MarkZeroTail(a);
    MarkZeroTail(b);
    var n := if a.Length >= b.Length then a.Length else b.Length;
    for i := 0 to n
      invariant CompareFrom(collate, a[..], b[..], 0) == CompareFrom(collate, a[..], b[..], i)
    {
      var x := if i < a.Length then Some(a[i]) else None;
      var y := if i < b.Length then Some(b[i]) else None;
      var c := CmpSegments(collate, x, y);
      if c != 0 { return if c < 0 then -1 else 1; }
    }
    return 0;
  }

  // ---- Laws that hold for all versions ----

  lemma CmpSegmentsAntisymmetric(collate: Collation, a: Option<Segment>, b: Option<Segment>)
    requires Antisymmetric(collate) && (a.Some? || b.Some?)
    ensures Sign(CmpSegments(collate, a, b)) == -Sign(CmpSegments(collate, b, a))
  {
    if a.Some? && b.Some? && !a.value.Num? && !b.value.Num? {
      var p, q := QualOf(a.value), QualOf(b.value);
      assert Sign(collate(p, q)) == -Sign(collate(q, p));
    }
  }

  lemma {:induction false} CompareFromAntisymmetric(collate: Collation, a: seq<Segment>, b: seq<Segment>, i: nat)
    requires Antisymmetric(collate)
    ensures CompareFrom(collate, a, b, i) == -CompareFrom(collate, b, a, i)
    decreases |a| + |b| - i
  {
    if i < |a| || i < |b| {
      CmpSegmentsAntisymmetric(collate, At(a, i), At(b, i));
      CompareFromAntisymmetric(collate, a, b, i + 1);
    }
  }

  lemma CompareAntisymmetric(collate: Collation, a: seq<Segment>, b: seq<Segment>)
    requires Antisymmetric(collate)
    ensures Compare(collate, a, b) == -Compare(collate, b, a)
    ensures Compare(collate, a, a) == 0
  {
    CompareFromAntisymmetric(collate, Marked(a), Marked(b), 0);
    CompareFromAntisymmetric(collate, Marked(a), Marked(a), 0);
  }

  /** The tails compare alike when one side is extended by a flagged zero. */
  lemma {:induction false} TrailingZeroFrom(collate: Collation, m: seq<Segment>, zero: Segment, b: seq<Segment>, i: nat)
    requires zero.Num? && zero.value == 0 && zero.zeroTail
    ensures CompareFrom(collate, m + [zero], b, i) == CompareFrom(collate, m, b, i)
    decreases |m| + |b| - i
  {
    var m' := m + [zero];
    if i < |m| {
      assert At(m', i) == At(m, i);
      TrailingZeroFrom(collate, m, zero, b, i + 1);
    } else if i < |b| {
      TrailingZeroFrom(collate, m, zero, b, i + 1);
    } else if i == |m| {
      assert CompareFrom(collate, m', b, i + 1) == 0;
    }
  }

  /** An appended `.0` (or `-0`) is invisible to every comparison, on either side. */
  lemma TrailingZeroInvisible(collate: Collation, a: seq<Segment>, b: seq<Segment>, sep: Sep)
    requires Antisymmetric(collate)
    ensures Compare(collate, a + [Num(0, sep, false)], b) == Compare(collate, a, b)
    ensures Compare(collate, b, a + [Num(0, sep, false)]) == Compare(collate, b, a)
  {
    var a0 := a + [Num(0, sep, false)];
    forall i | 0 <= i < |a|
      ensures Marked(a0)[i] == Marked(a)[i]
    {
      assert a0[i] == a[i];
      if a[i].Num? {
        assert IsZeroTail(a0, i) <==> IsZeroTail(a, i) by {
          if IsZeroTail(a, i) {
            forall j | i < j < |a0| ensures a0[j].Num? ==> a0[j].value == 0 {
              if j < |a| { assert a0[j] == a[j]; }
            }
          }
          if IsZeroTail(a0, i) {
            forall j | i < j < |a| ensures a[j].Num? ==> a[j].value == 0 {
              assert a0[j] == a[j];
            }
          }
        }
      }
    }
    assert Marked(a0) == Marked(a) + [Num(0, sep, true)];
    TrailingZeroFrom(collate, Marked(a), Num(0, sep, true), Marked(b), 0);
    CompareFromAntisymmetric(collate, Marked(a0), Marked(b), 0);
    CompareFromAntisymmetric(collate, Marked(a), Marked(b), 0);
  }
}
