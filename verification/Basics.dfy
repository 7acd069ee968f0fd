/** Small shared vocabulary. */
module Basics {

  datatype Option<+T> = None | Some(value: T)

  predicate Distinct<T(==)>(s: seq<T>) {
    forall i, j | 0 <= i < j < |s| :: s[i] != s[j]
  }

  function Max(a: int, b: int): int {
    if a >= b then a else b
  }

  function Min(a: int, b: int): int {
    if a <= b then a else b
  }

  /** Those that `keep` admits, each as often as it stands there and in the same order. */
  function Filter<T(==,!new)>(keep: T -> bool, s: seq<T>): (kept: seq<T>)
    ensures forall x :: x in kept <==> x in s && keep(x)
  {
    if s == [] then [] else (if keep(s[0]) then [s[0]] else []) + Filter(keep, s[1..])
  }

  lemma {:induction false} FilterInOrder<T(!new)>(keep: T -> bool, s: seq<T>, more: seq<T>)
    ensures Filter(keep, s + more) == Filter(keep, s) + Filter(keep, more)
  {
    if s == [] {
      assert s + more == more;
    } else {
      assert (s + more)[1..] == s[1..] + more;
      FilterInOrder(keep, s[1..], more);
    }
  }

  lemma {:induction false} FilterAll<T(!new)>(keep: T -> bool, s: seq<T>)
    ensures |Filter(keep, s)| <= |s| && (|Filter(keep, s)| == |s| ==> Filter(keep, s) == s)
    ensures (forall x | x in s :: keep(x)) ==> Filter(keep, s) == s
  {
    if s != [] {
      FilterAll(keep, s[1..]);
      assert s == [s[0]] + s[1..];
    }
  }

  lemma Regrouped<T>(a: seq<T>, b: seq<T>, c: seq<T>)
    ensures (a + b) + c == a + (b + c)
  {
  }

  lemma {:induction false} FilterDistinct<T(!new)>(keep: T -> bool, s: seq<T>)
    ensures Distinct(s) ==> Distinct(Filter(keep, s))
  {
    if s != [] && Distinct(s) {
      assert s[0] !in s[1..];
      FilterDistinct(keep, s[1..]);
      DistinctConcat(if keep(s[0]) then [s[0]] else [], Filter(keep, s[1..]));
    }
  }

  lemma DistinctConcat<T>(a: seq<T>, b: seq<T>)
    requires Distinct(a) && Distinct(b) && forall x | x in b :: x !in a
    ensures Distinct(a + b)
  {
    var c := a + b;
    forall i, j | 0 <= i < j < |c|
      ensures c[i] != c[j]
    {
      if j < |a| {
        assert c[i] == a[i] && c[j] == a[j];
      } else if i < |a| {
        assert c[i] == a[i] && c[j] == b[j - |a|] && c[j] in b;
      } else {
        assert c[i] == b[i - |a|] && c[j] == b[j - |a|];
      }
    }
  }

  lemma {:induction false} DistinctFits<T>(s: seq<T>, u: set<T>)
    requires Distinct(s) && forall x | x in s :: x in u
    ensures |s| <= |u|
  {
    if s != [] {
      var last := |s| - 1;
      assert forall x | x in s[..last] :: x in u - {s[last]};
      DistinctFits(s[..last], u - {s[last]});
    }
  }
}
