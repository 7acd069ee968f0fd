/**
 * lib/malware.js:26-44: the bounded Damerau-Levenshtein distance (optimal string alignment).
 *
 * Strings are sequences of code units. The distance is defined by edit scripts: the least
 * number of insertions, deletions, substitutions and adjacent swaps that turn one string into
 * the other, no unit being edited twice.
 */
module EditDistance {
  import opened Basics

  // ---- Edit scripts ----

  datatype Step =
    | Keep(c: char)
    | Insert(c: char)
    | Delete(c: char)
    | Substitute(from: char, to: char)
    | Swap(first: char, second: char)

  function Consumed(s: Step): string {
    match s
    case Keep(c) => [c]
    case Insert(_) => ""
    case Delete(c) => [c]
    case Substitute(x, _) => [x]
    case Swap(x, y) => [x, y]
  }

  function Produced(s: Step): string {
    match s
    case Keep(c) => [c]
    case Insert(c) => [c]
    case Delete(_) => ""
    case Substitute(_, y) => [y]
    case Swap(x, y) => [y, x]
  }

  function StepCost(s: Step): nat {
    if s.Keep? then 0 else 1
  }

  function Source(script: seq<Step>): string {
    if script == [] then "" else Source(script[..|script| - 1]) + Consumed(script[|script| - 1])
  }

  function Target(script: seq<Step>): string {
    if script == [] then "" else Target(script[..|script| - 1]) + Produced(script[|script| - 1])
  }

  function Cost(script: seq<Step>): nat {
    if script == [] then 0 else Cost(script[..|script| - 1]) + StepCost(script[|script| - 1])
  }

  ghost predicate Turns(script: seq<Step>, a: string, b: string) {
    Source(script) == a && Target(script) == b
  }

  /** `d` is the cost of a cheapest script from `a` to `b`. */
  ghost predicate IsDistance(d: nat, a: string, b: string) {
    && (exists script :: Turns(script, a, b) && Cost(script) == d)
    && (forall script | Turns(script, a, b) :: d <= Cost(script))
  }

  // ---- The table entry as a recursion on prefix lengths ----

  predicate EndsSwapped(a: string, b: string, i: nat, j: nat)
    requires i <= |a| && j <= |b|
  {
    i > 1 && j > 1 && a[i - 1] == b[j - 2] && a[i - 2] == b[j - 1]
  }

  /** The least of the ways to reach an entry from its neighbours: up, left, diagonal, swap. */
  function Combine(same: bool, swapped: bool, up: nat, left: nat, diagonal: nat, twoBack: nat): nat {
    var v := Min(Min(up + 1, left + 1), diagonal + if same then 0 else 1);
    if swapped then Min(v, twoBack + 1) else v
  }

  /** The distance between the first `i` units of `a` and the first `j` units of `b`. */
  function Prefix(a: string, b: string, i: nat, j: nat): (d: nat)
    requires i <= |a| && j <= |b|
    decreases i + j
  {
    if i == 0 then j
    else if j == 0 then i
    else
      var swapped := EndsSwapped(a, b, i, j);
      Combine(a[i - 1] == b[j - 1], swapped, Prefix(a, b, i - 1, j), Prefix(a, b, i, j - 1),
              Prefix(a, b, i - 1, j - 1), if swapped then Prefix(a, b, i - 2, j - 2) else 0)
  }

  function Osa(a: string, b: string): nat {
    Prefix(a, b, |a|, |b|)
  }

  // ---- The recursion is the minimum over scripts ----

  lemma PrefixEdges(a: string, b: string)
    ensures forall i | 0 <= i <= |a| :: Prefix(a, b, i, 0) == i
    ensures forall j | 0 <= j <= |b| :: Prefix(a, b, 0, j) == j
  {
  }

  lemma PrefixEntry(a: string, b: string, i: nat, j: nat)
    requires 0 < i <= |a| && 0 < j <= |b|
    ensures var swapped := EndsSwapped(a, b, i, j);
            Prefix(a, b, i, j) ==
            Combine(a[i - 1] == b[j - 1], swapped, Prefix(a, b, i - 1, j), Prefix(a, b, i, j - 1),
                    Prefix(a, b, i - 1, j - 1), if swapped then Prefix(a, b, i - 2, j - 2) else 0)
  {
  }

  lemma StepBound(s: Step, a: string, b: string, i: nat, j: nat)
    requires i + |Consumed(s)| <= |a| && j + |Produced(s)| <= |b|
    requires a[i..i + |Consumed(s)|] == Consumed(s) && b[j..j + |Produced(s)|] == Produced(s)
    ensures Prefix(a, b, i + |Consumed(s)|, j + |Produced(s)|) <= Prefix(a, b, i, j) + StepCost(s)
  {
    hide Prefix;
    var i', j' := i + |Consumed(s)|, j + |Produced(s)|;
    forall k | 0 <= k < |Consumed(s)| ensures a[i + k] == Consumed(s)[k] { assert a[i..i'][k] == a[i + k]; }
    forall k | 0 <= k < |Produced(s)| ensures b[j + k] == Produced(s)[k] { assert b[j..j'][k] == b[j + k]; }
    PrefixEdges(a, b);
    if i' > 0 && j' > 0 { PrefixEntry(a, b, i', j'); }
  }

  lemma {:induction false} NoCheaperScript(script: seq<Step>, a: string, b: string)
    requires Source(script) <= a && Target(script) <= b
    ensures Prefix(a, b, |Source(script)|, |Target(script)|) <= Cost(script)
  {
    hide Prefix, Source, Target, Cost, Consumed, Produced, StepCost;
    if script == [] {
      NothingDone();
      PrefixEdges(a, b);
    } else {
      var rest, s := script[..|script| - 1], script[|script| - 1];
      assert script == rest + [s];
      Extended(rest, s);
      LastPiece(Source(rest), Consumed(s), a);
      LastPiece(Target(rest), Produced(s), b);
      NoCheaperScript(rest, a, b);
      StepBound(s, a, b, |Source(rest)|, |Target(rest)|);
    }
  }

  lemma NothingDone()
    ensures Source([]) == "" && Target([]) == "" && Cost([]) == 0
  {
  }

  lemma LastPiece(p: string, q: string, a: string)
    requires p + q <= a
    ensures p <= a && |p| + |q| <= |a| && a[|p|..|p| + |q|] == q
  {
  }

  lemma Extended(script: seq<Step>, s: Step)
    ensures Source(script + [s]) == Source(script) + Consumed(s)
    ensures Target(script + [s]) == Target(script) + Produced(s)
    ensures Cost(script + [s]) == Cost(script) + StepCost(s)
  {
    assert (script + [s])[..|script|] == script;
  }

  /** The last step of a cheapest script, with the prefix lengths left before it. */
  lemma LastStep(a: string, b: string, i: nat, j: nat) returns (s: Step, i': nat, j': nat)
    requires i <= |a| && j <= |b| && (i > 0 || j > 0)
    ensures i' + j' < i + j && i' <= i && j' <= j
    ensures a[..i] == a[..i'] + Consumed(s) && b[..j] == b[..j'] + Produced(s)
    ensures Prefix(a, b, i, j) == Prefix(a, b, i', j') + StepCost(s)
  {
    hide Prefix;
    PrefixEdges(a, b);
    if i > 0 && j > 0 { PrefixEntry(a, b, i, j); }
    if i == 0 {
      s, i', j' := Insert(b[j - 1]), i, j - 1;
    } else if j == 0 {
      s, i', j' := Delete(a[i - 1]), i - 1, j;
    } else if EndsSwapped(a, b, i, j) && Prefix(a, b, i, j) == Prefix(a, b, i - 2, j - 2) + 1 {
      s, i', j' := Swap(a[i - 2], a[i - 1]), i - 2, j - 2;
    } else if Prefix(a, b, i, j) == Prefix(a, b, i - 1, j) + 1 {
      s, i', j' := Delete(a[i - 1]), i - 1, j;
    } else if Prefix(a, b, i, j) == Prefix(a, b, i, j - 1) + 1 {
      s, i', j' := Insert(b[j - 1]), i, j - 1;
    } else {
      s := if a[i - 1] == b[j - 1] then Keep(a[i - 1]) else Substitute(a[i - 1], b[j - 1]);
      i', j' := i - 1, j - 1;
    }
  }

  lemma {:induction false} CheapestScript(a: string, b: string, i: nat, j: nat) returns (script: seq<Step>)
    requires i <= |a| && j <= |b|
    ensures Turns(script, a[..i], b[..j]) && Cost(script) == Prefix(a, b, i, j)
    decreases i + j
  {
    if i == 0 && j == 0 {
      script := [];
    } else {
      var s, i', j' := LastStep(a, b, i, j);
      script := CheapestScript(a, b, i', j');
      Extended(script, s);
      script := script + [s];
    }
  }

  lemma OsaIsDistance(a: string, b: string)
    ensures IsDistance(Osa(a, b), a, b)
  {
    var best := CheapestScript(a, b, |a|, |b|);
    assert a[..|a|] == a && b[..|b|] == b;
    forall script | Turns(script, a, b)
      ensures Osa(a, b) <= Cost(script)
    {
      NoCheaperScript(script, a, b);
    }
  }

  /** The length gap is a lower bound, which is what lets the prefilter skip a pair. */
  lemma {:induction false} LengthGap(script: seq<Step>)
    ensures |Source(script)| - |Target(script)| <= Cost(script)
    ensures |Target(script)| - |Source(script)| <= Cost(script)
  {
    if script != [] { LengthGap(script[..|script| - 1]); }
  }

  lemma {:induction false} EqualPrefixes(a: string, i: nat)
    requires i <= |a|
    ensures Prefix(a, a, i, i) == 0
  {
    if i > 0 { EqualPrefixes(a, i - 1); }
  }

  // ---- The method ----

  /** The first `rows` rows, and the first column, hold the distances of their prefixes. */
  ghost predicate Filled(d: array2<nat>, a: string, b: string, rows: nat)
    reads d
  {
    && d.Length0 == |a| + 1 && d.Length1 == |b| + 1 && rows <= |a| + 1
    && (forall k | 0 <= k <= |a| :: d[k, 0] == k)
    && (forall k, m | 0 <= k < rows && 0 <= m <= |b| :: d[k, m] == Prefix(a, b, k, m))
  }

  method FillRow(a: string, b: string, d: array2<nat>, i: nat)
    requires 1 <= i <= |a| && Filled(d, a, b, i)
    modifies d
    ensures Filled(d, a, b, i + 1)
  {
    hide Prefix;
    PrefixEdges(a, b);
    for j := 1 to |b| + 1
      invariant Filled(d, a, b, i)
      invariant forall m | 0 <= m < j :: d[i, m] == Prefix(a, b, i, m)
    {
      var cost := if a[i - 1] == b[j - 1] then 0 else 1;
      var v := Min(Min(d[i - 1, j] + 1, d[i, j - 1] + 1), d[i - 1, j - 1] + cost);
      if i > 1 && j > 1 && a[i - 1] == b[j - 2] && a[i - 2] == b[j - 1] {
        v := Min(v, d[i - 2, j - 2] + 1);
      }
      assert v == Prefix(a, b, i, j) by { PrefixEntry(a, b, i, j); }
      d[i, j] := v;
    }
  }

  method BoundedEditDistance(a: string, b: string, max: nat) returns (r: nat)
    ensures r == if Osa(a, b) <= max then Osa(a, b) else max + 1
  {
    if a == b {
      EqualPrefixes(a, |a|);
      return 0;
    }
    var la, lb := |a|, |b|;
    if la - lb > max || lb - la > max {
      ghost var script := CheapestScript(a, b, la, lb);
      LengthGap(script);
      return max + 1;
    }
    var d := new nat[la + 1, lb + 1]((_, _) => 0);
    for i := 0 to la + 1
      invariant forall k | 0 <= k < i :: d[k, 0] == k
    {
      d[i, 0] := i;
    }
    for j := 0 to lb + 1
      invariant forall k | 0 <= k <= la :: d[k, 0] == k
      invariant forall k | 0 <= k < j :: d[0, k] == k
    {
      d[0, j] := j;
    }
    PrefixEdges(a, b);
    for i := 1 to la + 1
      invariant Filled(d, a, b, i)
    {
      FillRow(a, b, d, i);
    }
    return if d[la, lb] <= max then d[la, lb] else max + 1;
  }
}
