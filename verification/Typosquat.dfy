/**
 * lib/malware.js:74-98: names one edit away from a popular package.
 *
 * Package names arrive as the codecs resolved them; the two popular lists keep their order, and
 * the PyPI list is already normalised.
 */
module Typosquat {
  import opened Basics
  import opened EditDistance

  // ---- What distance 1 means, without any table or script ----

  /** One insertion, one deletion, one substitution or one swap of different neighbours. */
  ghost predicate SingleEdit(u: string, w: string) {
    || (u == "" && |w| == 1)
    || (|u| == 1 && w == "")
    || (|u| == 1 && |w| == 1 && u != w)
    || (|u| == 2 && w == [u[1], u[0]] && u != w)
  }

  ghost predicate EditAt(a: string, b: string, p: string, u: string, w: string, s: string) {
    SingleEdit(u, w) && a == p + u + s && b == p + w + s
  }

  ghost predicate OneEditApart(a: string, b: string) {
    exists p, u, w, s :: EditAt(a, b, p, u, w, s)
  }

  lemma {:induction false} FreeScriptCopies(script: seq<Step>)
    requires Cost(script) == 0
    ensures Source(script) == Target(script)
  {
    if script != [] { FreeScriptCopies(script[..|script| - 1]); }
  }

  lemma {:induction false} SplitAtOnlyEdit(script: seq<Step>) returns (p: string, e: Step, s: string)
    requires Cost(script) == 1
    ensures !e.Keep? && Source(script) == p + Consumed(e) + s && Target(script) == p + Produced(e) + s
  {
    var rest, last := script[..|script| - 1], script[|script| - 1];
    if last.Keep? {
      p, e, s := SplitAtOnlyEdit(rest);
      s := s + [last.c];
    } else {
      FreeScriptCopies(rest);
      p, e, s := Source(rest), last, "";
    }
  }

  lemma {:induction false} AppendKeeps(script: seq<Step>, a: string, b: string, s: string) returns (longer: seq<Step>)
    requires Turns(script, a, b)
    ensures Turns(longer, a + s, b + s) && Cost(longer) == Cost(script)
  {
    hide Turns, Source, Target;
    if s == "" {
      longer := script;
      assert a + s == a && b + s == b;
    } else {
      var shorter, last := s[..|s| - 1], s[|s| - 1];
      longer := AppendKeeps(script, a, b, shorter);
      OneKeep(longer, a + shorter, b + shorter, last);
      longer := longer + [Keep(last)];
      assert s == shorter + [last];
      Regrouped(a, shorter, [last]);
      Regrouped(b, shorter, [last]);
    }
  }

  lemma OneKeep(script: seq<Step>, a: string, b: string, c: char)
    requires Turns(script, a, b)
    ensures Turns(script + [Keep(c)], a + [c], b + [c]) && Cost(script + [Keep(c)]) == Cost(script)
  {
    Extended(script, Keep(c));
  }

  lemma EditChanges(a: string, b: string, p: string, u: string, w: string, s: string)
    requires EditAt(a, b, p, u, w, s)
    ensures a != b
  {
    if |u| == |w| {
      assert a[|p|..|p| + |u|] == u && b[|p|..|p| + |w|] == w;
    }
  }

  lemma NothingTurnsNothing()
    ensures Turns([], "", "") && Cost([]) == 0
  {
  }

  /** The step that makes the edit. */
  function StepFor(u: string, w: string): Step
    requires SingleEdit(u, w)
  {
    if u == "" then Insert(w[0]) else if w == "" then Delete(u[0])
    else if |u| == 1 then Substitute(u[0], w[0]) else Swap(u[0], u[1])
  }

  lemma EditStep(a: string, b: string, p: string, u: string, w: string, s: string) returns (e: Step)
    requires EditAt(a, b, p, u, w, s)
    ensures Consumed(e) == u && Produced(e) == w && StepCost(e) == 1 && a == p + u + s && b == p + w + s
  {
    e := StepFor(u, w);
  }

  lemma EditScript(a: string, b: string, p: string, u: string, w: string, s: string) returns (script: seq<Step>)
    requires EditAt(a, b, p, u, w, s)
    ensures Turns(script, a, b) && Cost(script) == 1
  {
    var e := EditStep(a, b, p, u, w, s);
    hide Source, Target, Cost, Consumed, Produced, StepCost;
    NothingTurnsNothing();
    script := AppendKeeps([], "", "", p);
    Extended(script, e);
    script := AppendKeeps(script + [e], p + u, p + w, s);
  }

  lemma OneEditCostsOne(a: string, b: string, p: string, u: string, w: string, s: string)
    requires EditAt(a, b, p, u, w, s)
    ensures Osa(a, b) == 1
  {
    hide Prefix;
    var script := EditScript(a, b, p, u, w, s);
    EditChanges(a, b, p, u, w, s);
    OsaIsDistance(a, b);
    var best :| Turns(best, a, b) && Cost(best) == Osa(a, b);
    if Cost(best) == 0 { FreeScriptCopies(best); }
  }

  lemma DistanceOneIsAnEdit(a: string, b: string)
    requires Osa(a, b) == 1
    ensures OneEditApart(a, b)
  {
    hide Prefix;
    OsaIsDistance(a, b);
    var script :| Turns(script, a, b) && Cost(script) == 1;
    var p, e, s := SplitAtOnlyEdit(script);
    assert a != b by { if a == b { EqualPrefixes(a, |a|); } }
    assert EditAt(a, b, p, Consumed(e), Produced(e), s);
  }

  lemma DistanceOne(a: string, b: string)
    ensures Osa(a, b) == 1 <==> OneEditApart(a, b)
  {
    hide Prefix;
    if Osa(a, b) == 1 { DistanceOneIsAnEdit(a, b); }
    if OneEditApart(a, b) {
      var p, u, w, s :| EditAt(a, b, p, u, w, s);
      OneEditCostsOne(a, b, p, u, w, s);
    }
  }

  // ---- The detector ----

  datatype Ecosystem = Npm | PyPI | Other

  datatype Provenance = Manifest | Embedded | Binary

  datatype Dep = Dep(ecosystem: Ecosystem, provenance: Provenance, name: string, coord: string)

  datatype Squat = Squat(ecosystem: Ecosystem, coord: string, name: string, resembles: string)

  function LowerChar(c: char): char {
    if 'A' <= c <= 'Z' then c - 'A' + 'a' else c
  }

  predicate Folds(c: char) { c == '-' || c == '_' || c == '.' }

  /** PEP 503: lower case, every run of `-`, `_` and `.` one `-`. */
  function NormalizePyPI(s: string): string {
    if s == "" then ""
    else if !Folds(s[0]) then [LowerChar(s[0])] + NormalizePyPI(s[1..])
    else if |s| > 1 && Folds(s[1]) then NormalizePyPI(s[1..])
    else "-" + NormalizePyPI(s[1..])
  }

  function Normalized(d: Dep): string {
    if d.ecosystem == PyPI then NormalizePyPI(d.name) else d.name
  }

  function Popular(d: Dep, npm: seq<string>, pypi: seq<string>): seq<string> {
    if d.ecosystem == Npm then npm else pypi
  }

  /** A dependency worth comparing: registry-named, unscoped, not popular itself, not too short. */
  predicate Comparable(d: Dep, popular: seq<string>) {
    && !d.ecosystem.Other?
    && d.provenance.Manifest?
    && d.name != "" && d.name[0] != '@'
    && popular != [] && Normalized(d) !in popular
    && |Normalized(d)| >= 5
  }

  /** The first popular name one edit away. */
  ghost function FirstResembled(name: string, popular: seq<string>): Option<string> {
    if popular == [] then None
    else if OneEditApart(name, popular[0]) then Some(popular[0])
    else FirstResembled(name, popular[1..])
  }

  ghost function Squats(deps: seq<Dep>, npm: seq<string>, pypi: seq<string>): seq<Squat> {
    if deps == [] then []
    else
      var d := deps[|deps| - 1];
      var popular := Popular(d, npm, pypi);
      var rest := Squats(deps[..|deps| - 1], npm, pypi);
      if Comparable(d, popular) && FirstResembled(Normalized(d), popular).Some?
      then rest + [Squat(d.ecosystem, d.coord, d.name, FirstResembled(Normalized(d), popular).value)]
      else rest
  }

  method FindResembled(name: string, popular: seq<string>) returns (best: Option<string>)
    ensures best == FirstResembled(name, popular)
  {
    for i := 0 to |popular|
      invariant FirstResembled(name, popular) == FirstResembled(name, popular[i..])
    {
      var target := popular[i];
      DistanceOne(name, target);
      var near := -1 <= |target| - |name| <= 1;
      if near {
        var d := BoundedEditDistance(name, target, 1);
        if d == 1 { return Some(target); }
      } else {
        var script := CheapestScript(name, target, |name|, |target|);
        LengthGap(script);
        assert name[..|name|] == name && target[..|target|] == target;
      }
    }
    return None;
  }

  method DetectTyposquats(deps: seq<Dep>, npm: seq<string>, pypi: seq<string>) returns (out: seq<Squat>)
    ensures out == Squats(deps, npm, pypi)
  {
    out := [];
    for i := 0 to |deps|
      invariant out == Squats(deps[..i], npm, pypi)
    {
      assert deps[..i + 1][..i] == deps[..i];
      var d := deps[i];
      var popular := Popular(d, npm, pypi);
      if !Comparable(d, popular) { continue; }
      var best := FindResembled(Normalized(d), popular);
      if best.Some? { out := out + [Squat(d.ecosystem, d.coord, d.name, best.value)]; }
    }
    assert deps[..|deps|] == deps;
  }

  /** A finding names the first popular package one edit away; silence means there is none. */
  lemma {:induction false} FirstResembledIsFirst(name: string, popular: seq<string>)
    ensures FirstResembled(name, popular).Some? <==> exists p | p in popular :: OneEditApart(name, p)
    ensures FirstResembled(name, popular).Some? ==> OneEditApart(name, FirstResembled(name, popular).value)
  {
    if popular != [] { FirstResembledIsFirst(name, popular[1..]); }
  }

  // ---- What a finding says ----

  /** Capitals become the small letters 32 places on, all else stays. */
  lemma LowerChars(c: char)
    ensures LowerChar(c) as int == if 'A' <= c <= 'Z' then c as int + 32 else c as int
  {
  }

  /** A stretch of the name without separators, and the separators after it. */
  datatype Piece = Piece(word: string, run: string)

  predicate HasNoSeparator(w: string) {
    forall i | 0 <= i < |w| :: w[i] != '-' && w[i] != '_' && w[i] != '.'
  }

  predicate IsRun(r: string) {
    r != "" && forall i | 0 <= i < |r| :: r[i] == '-' || r[i] == '_' || r[i] == '.'
  }

  /** Every piece but the first has a word: a run of separators ends only where a word begins. */
  predicate ArePieces(ps: seq<Piece>, last: string) {
    && (forall i | 0 <= i < |ps| :: HasNoSeparator(ps[i].word) && IsRun(ps[i].run) && (i > 0 ==> ps[i].word != ""))
    && HasNoSeparator(last)
  }

  function Spelled(ps: seq<Piece>, last: string): string {
    if ps == [] then last else ps[0].word + ps[0].run + Spelled(ps[1..], last)
  }

  function Lowered(w: string): string {
    seq(|w|, i requires 0 <= i < |w| => LowerChar(w[i]))
  }

  /** The words in lower case, one dash between them. */
  function Folded(ps: seq<Piece>, last: string): string {
    if ps == [] then Lowered(last) else Lowered(ps[0].word) + "-" + Folded(ps[1..], last)
  }

  lemma {:induction false} WordFolds(w: string, rest: string)
    requires HasNoSeparator(w)
    ensures NormalizePyPI(w + rest) == Lowered(w) + NormalizePyPI(rest)
  {
    if w == "" {
      assert w + rest == rest && Lowered(w) == "";
    } else {
      assert (w + rest)[1..] == w[1..] + rest;
      WordFolds(w[1..], rest);
      assert Lowered(w) == [LowerChar(w[0])] + Lowered(w[1..]);
    }
  }

  lemma {:induction false} RunFolds(run: string, rest: string)
    requires IsRun(run) && (rest == "" || !Folds(rest[0]))
    ensures NormalizePyPI(run + rest) == "-" + NormalizePyPI(rest)
  {
    var s := run + rest;
    assert s[1..] == run[1..] + rest;
    if |run| > 1 {
      RunFolds(run[1..], rest);
    } else {
      assert run[1..] + rest == rest;
    }
  }

  /** PyPI names that differ in case or in their separators only are one name. */
  lemma {:induction false} NormalizeSays(ps: seq<Piece>, last: string)
    requires ArePieces(ps, last) && (ps == [] || last != "" || |ps| == 1)
    ensures NormalizePyPI(Spelled(ps, last)) == Folded(ps, last)
  {
    if ps == [] {
      WordFolds(last, "");
      assert last + "" == last && Lowered(last) + "" == Lowered(last);
    } else {
      var p, rest := ps[0], Spelled(ps[1..], last);
      assert p.word + p.run + rest == p.word + (p.run + rest);
      WordFolds(p.word, p.run + rest);
      SpelledStarts(ps[1..], last, ps);
      RunFolds(p.run, rest);
      NormalizeSays(ps[1..], last);
    }
  }

  lemma SpelledStarts(rest: seq<Piece>, last: string, ps: seq<Piece>)
    requires ps != [] && rest == ps[1..] && ArePieces(ps, last)
    ensures ArePieces(rest, last) && (Spelled(rest, last) == "" || !Folds(Spelled(rest, last)[0]))
  {
    assert forall i | 0 <= i < |rest| :: rest[i] == ps[i + 1];
  }

  /** `p` is the first of the names one edit away. */
  ghost predicate IsFirstNear(name: string, names: seq<string>, p: string, i: nat) {
    i < |names| && names[i] == p && OneEditApart(name, p) && forall j | 0 <= j < i :: !OneEditApart(name, names[j])
  }

  /** The dependency is suspect because of `p`: named by a manifest, unscoped, long enough, no popular name itself, and one edit from `p` first. */
  ghost predicate IsSuspect(d: Dep, npm: seq<string>, pypi: seq<string>, p: string) {
    && (d.ecosystem == Npm || d.ecosystem == PyPI) && d.provenance == Manifest && d.name != "" && d.name[0] != '@'
    && var names := if d.ecosystem == PyPI then pypi else npm;
       var name := if d.ecosystem == Npm then d.name else NormalizePyPI(d.name);
       && |name| > 4 && name !in names
       && exists i: nat :: IsFirstNear(name, names, p, i)
  }

  lemma {:induction false} FirstResembledAt(name: string, popular: seq<string>, p: string)
    ensures FirstResembled(name, popular) == Some(p) <==> exists i: nat :: IsFirstNear(name, popular, p, i)
  {
    hide OneEditApart;
    if popular != [] {
      var rest := popular[1..];
      FirstResembledAt(name, rest, p);
      assert forall j | 0 < j < |popular| :: popular[j] == rest[j - 1];
      if OneEditApart(name, popular[0]) {
        assert popular[0] == p ==> IsFirstNear(name, popular, p, 0);
      } else {
        assert forall i: nat | IsFirstNear(name, rest, p, i) :: IsFirstNear(name, popular, p, i + 1);
        assert forall i: nat | IsFirstNear(name, popular, p, i) :: i > 0 && IsFirstNear(name, rest, p, i - 1);
      }
    }
  }

  lemma SuspectSays(d: Dep, npm: seq<string>, pypi: seq<string>, p: string)
    ensures IsSuspect(d, npm, pypi, p) <==>
              Comparable(d, Popular(d, npm, pypi)) && FirstResembled(Normalized(d), Popular(d, npm, pypi)) == Some(p)
  {
    var name, names := Normalized(d), Popular(d, npm, pypi);
    FirstResembledAt(name, names, p);
    NearOne(name, names, p);
    if Comparable(d, names) && FirstResembled(name, names) == Some(p) {
      assert exists i: nat :: IsFirstNear(name, names, p, i);
      if d.ecosystem == Npm { assert names == npm; } else { assert names == pypi; }
      assert IsSuspect(d, npm, pypi, p);
    }
  }

  lemma NearOne(name: string, names: seq<string>, p: string)
    ensures (exists i: nat :: IsFirstNear(name, names, p, i)) ==> names != []
  {
  }

  /** The detector reports exactly the suspect dependencies, in order, each as the first popular package it resembles. */
  lemma {:induction false} SquatsSay(deps: seq<Dep>, npm: seq<string>, pypi: seq<string>, q: Squat)
    ensures q in Squats(deps, npm, pypi) <==>
              exists d :: d in deps && q == Squat(d.ecosystem, d.coord, d.name, q.resembles) && IsSuspect(d, npm, pypi, q.resembles)
    ensures deps != [] ==>
              Squats(deps[..|deps| - 1], npm, pypi) <= Squats(deps, npm, pypi)
  {
    if deps != [] {
      var rest, d := deps[..|deps| - 1], deps[|deps| - 1];
      SquatsSay(rest, npm, pypi, q);
      SuspectSays(d, npm, pypi, q.resembles);
      hide Comparable, FirstResembled, IsSuspect, Normalized, Popular;
      assert forall x :: x in deps <==> x in rest || x == d;
    }
  }
}
