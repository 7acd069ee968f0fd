/** Three-way comparators, as the JavaScript code uses them: negative, zero or positive. */
module Orders {

  function Sign(n: int): (s: int)
    ensures -1 <= s <= 1
  {
    if n < 0 then -1 else if n > 0 then 1 else 0
  }

  ghost predicate Antisymmetric<T(!new)>(cmp: (T, T) -> int) {
    forall x, y :: Sign(cmp(x, y)) == -Sign(cmp(y, x))
  }

  ghost predicate Transitive<T(!new)>(cmp: (T, T) -> int) {
    forall x, y, z :: cmp(x, y) <= 0 && cmp(y, z) <= 0 ==> cmp(x, z) <= 0
  }

  /** A comparator any two values of which can be ranked consistently; ties need not be equal. */
  ghost predicate TotalPreorder<T(!new)>(cmp: (T, T) -> int) {
    Antisymmetric(cmp) && Transitive(cmp)
  }

  /** The comparator ranks the values that `ok` admits; of the others nothing is asked. */
  ghost predicate RanksOn<T(!new)>(cmp: (T, T) -> int, ok: T -> bool) {
    && (forall x, y | ok(x) && ok(y) :: Sign(cmp(x, y)) == -Sign(cmp(y, x)))
    && (forall x, y, z | ok(x) && ok(y) && ok(z) && cmp(x, y) <= 0 && cmp(y, z) <= 0 :: cmp(x, z) <= 0)
  }

  /** Every way the three comparisons of a triple can be chained agrees. */
  ghost predicate ConsistentTriple<T>(cmp: (T, T) -> int, x: T, y: T, z: T) {
    && (cmp(x, y) <= 0 && cmp(y, z) <= 0 ==> cmp(x, z) <= 0)
    && (cmp(y, z) <= 0 && cmp(z, x) <= 0 ==> cmp(y, x) <= 0)
    && (cmp(z, x) <= 0 && cmp(x, y) <= 0 ==> cmp(z, y) <= 0)
  }

  // ---- Sorting by a comparator ----

  ghost predicate SortedBy<T>(cmp: (T, T) -> int, s: seq<T>) {
    forall i, j | 0 <= i < j < |s| :: cmp(s[i], s[j]) <= 0
  }

  /** `x` placed after every element it does not precede: a stable insertion. */
  function InsertBy<T>(cmp: (T, T) -> int, s: seq<T>, x: T): (r: seq<T>)
    ensures multiset(r) == multiset(s) + multiset{x}
  {
    if s == [] || cmp(x, s[|s| - 1]) >= 0 then s + [x]
    else
      assert s == s[..|s| - 1] + [s[|s| - 1]];
      InsertBy(cmp, s[..|s| - 1], x) + [s[|s| - 1]]
  }

  /** A stable sort, as Array.prototype.sort performs. */
  function SortBy<T>(cmp: (T, T) -> int, s: seq<T>): (r: seq<T>)
    ensures multiset(r) == multiset(s)
  {
    if s == [] then []
    else
      assert s == s[..|s| - 1] + [s[|s| - 1]];
      InsertBy(cmp, SortBy(cmp, s[..|s| - 1]), s[|s| - 1])
  }

  lemma InsertByHas<T(!new)>(cmp: (T, T) -> int, s: seq<T>, x: T)
    ensures forall y :: y in InsertBy(cmp, s, x) <==> y in s || y == x
  {
    var r := InsertBy(cmp, s, x);
    forall y ensures y in r <==> y in s || y == x {
      assert y in r <==> y in multiset(r);
      assert y in s <==> y in multiset(s);
    }
  }

  lemma SortedAppend<T>(cmp: (T, T) -> int, s: seq<T>, x: T)
    requires SortedBy(cmp, s) && forall y | y in s :: cmp(y, x) <= 0
    ensures SortedBy(cmp, s + [x])
  {
  }

  lemma {:induction false} InsertBySorted<T(!new)>(cmp: (T, T) -> int, ok: T -> bool, s: seq<T>, x: T)
    requires RanksOn(cmp, ok) && SortedBy(cmp, s) && ok(x) && forall y | y in s :: ok(y)
    ensures SortedBy(cmp, InsertBy(cmp, s, x))
  {
    if s != [] {
      var last := s[|s| - 1];
      var before := s[..|s| - 1];
      forall y | y in before ensures cmp(y, last) <= 0 {
        var i :| 0 <= i < |before| && before[i] == y;
        assert cmp(s[i], s[|s| - 1]) <= 0;
      }
      assert Sign(cmp(x, last)) == -Sign(cmp(last, x));
      if cmp(x, last) < 0 {
        InsertBySorted(cmp, ok, before, x);
        InsertByHas(cmp, before, x);
        SortedAppend(cmp, InsertBy(cmp, before, x), last);
      } else {
        forall y | y in s ensures cmp(y, x) <= 0 {
          var i :| 0 <= i < |s| && s[i] == y;
          assert i < |s| - 1 ==> cmp(y, last) <= 0;
        }
        SortedAppend(cmp, s, x);
      }
    }
  }

  lemma SortByHas<T(!new)>(cmp: (T, T) -> int, s: seq<T>)
    ensures forall x :: x in SortBy(cmp, s) <==> x in s
  {
    forall x ensures x in SortBy(cmp, s) <==> x in s {
      assert x in SortBy(cmp, s) <==> x in multiset(SortBy(cmp, s));
      assert x in s <==> x in multiset(s);
    }
  }

  /** Sorting sorts as soon as the comparator ranks the values at hand. */
  lemma {:induction false} SortBySortedOn<T(!new)>(cmp: (T, T) -> int, ok: T -> bool, s: seq<T>)
    requires RanksOn(cmp, ok) && forall x | x in s :: ok(x)
    ensures SortedBy(cmp, SortBy(cmp, s))
    ensures forall x :: x in SortBy(cmp, s) <==> x in s
  {
    if s != [] {
      SortBySortedOn(cmp, ok, s[..|s| - 1]);
      InsertBySorted(cmp, ok, SortBy(cmp, s[..|s| - 1]), s[|s| - 1]);
    }
    SortByHas(cmp, s);
  }

  /** There is one way only to sort values none of which tie. */
  lemma {:induction false} SortedIsUnique<T(!new)>(cmp: (T, T) -> int, ok: T -> bool, t: seq<T>, s: seq<T>)
    requires RanksOn(cmp, ok) && forall x | x in s :: ok(x)
    requires forall i, j | 0 <= i < j < |s| :: cmp(s[i], s[j]) < 0
    requires SortedBy(cmp, t) && multiset(t) == multiset(s)
    ensures t == s
  {
    hide RanksOn, SortedBy;
    SameLength(t, s);
    if s != [] {
      var n := |s| - 1;
      SameLast(cmp, ok, t, s);
      AllButLast(t, s);
      SortedPrefix(cmp, t, n);
      SortedIsUnique(cmp, ok, t[..n], s[..n]);
      assert t == t[..n] + [t[n]] && s == s[..n] + [s[n]];
    }
  }

  lemma SortedPrefix<T>(cmp: (T, T) -> int, t: seq<T>, n: nat)
    requires SortedBy(cmp, t) && n <= |t|
    ensures SortedBy(cmp, t[..n])
  {
  }

  lemma SameLength<T>(t: seq<T>, s: seq<T>)
    requires multiset(t) == multiset(s)
    ensures |t| == |s|
  {
    assert |t| == |multiset(t)| == |multiset(s)| == |s|;
  }

  lemma AllButLast<T>(t: seq<T>, s: seq<T>)
    requires |t| == |s| > 0 && t[|t| - 1] == s[|s| - 1] && multiset(t) == multiset(s)
    ensures multiset(t[..|t| - 1]) == multiset(s[..|s| - 1])
  {
    var n := |s| - 1;
    assert t == t[..n] + [t[n]] && s == s[..n] + [s[n]];
    assert multiset(t[..n]) == multiset(t) - multiset{t[n]} && multiset(s[..n]) == multiset(s) - multiset{s[n]};
  }

  lemma SameLast<T(!new)>(cmp: (T, T) -> int, ok: T -> bool, t: seq<T>, s: seq<T>)
    requires RanksOn(cmp, ok) && (forall x | x in s :: ok(x)) && |t| == |s| > 0
    requires forall i, j | 0 <= i < j < |s| :: cmp(s[i], s[j]) < 0
    requires SortedBy(cmp, t) && multiset(t) == multiset(s)
    ensures t[|t| - 1] == s[|s| - 1]
  {
    var n := |s| - 1;
    assert t[n] in multiset(s) && s[n] in multiset(t);
    var i :| 0 <= i < |s| && s[i] == t[n];
    var k :| 0 <= k < |t| && t[k] == s[n];
    assert Sign(cmp(s[i], s[n])) == -Sign(cmp(s[n], s[i]));
    assert k < n ==> cmp(t[k], t[n]) <= 0;
  }
}
