/**
 * lib/maven-version.js:320-355: Maven version ranges, read from text, tested, and resolved to the
 * highest published version.
 */
module VersionRange {
  import opened Basics
  import opened Orders
  import opened DepRecords

  /** One interval; a missing bound is the empty string. */
  datatype Interval = Interval(lower: string, lowerInc: bool, upper: string, upperInc: bool)

  /** One bracketed group of the text. */
  datatype Group = Group(open: char, body: string, close: char)

  predicate IsOpen(c: char) { c == '[' || c == '(' }
  predicate IsClose(c: char) { c == ']' || c == ')' }
  predicate IsBracket(c: char) { IsOpen(c) || IsClose(c) }
  predicate IsSpace(c: char) { c == ' ' || c == '\t' || c == '\n' || c == '\r' }

  function TrimLeft(s: string): string {
    if s != "" && IsSpace(s[0]) then TrimLeft(s[1..]) else s
  }

  function TrimRight(s: string): string {
    if s != "" && IsSpace(s[|s| - 1]) then TrimRight(s[..|s| - 1]) else s
  }

  function Trim(s: string): string {
    TrimRight(TrimLeft(s))
  }

  predicate IsVersionRange(s: string) {
    var t := Trim(s);
    |t| >= 2 && IsOpen(t[0]) && IsClose(t[|t| - 1]) && '\n' !in t && '\r' !in t
  }

  /** Length of the leading text without any bracket. */
  function BodyLength(s: string): (n: nat)
    ensures n <= |s| && (forall i | 0 <= i < n :: !IsBracket(s[i])) && (n < |s| ==> IsBracket(s[n]))
  {
    if s == "" || IsBracket(s[0]) then 0 else 1 + BodyLength(s[1..])
  }

  /** The group that opens at the first character, if one does. */
  function GroupHere(s: string): (g: Option<Group>)
    requires s != ""
    ensures g.Some? ==> |g.value.body| + 2 <= |s|
  {
    var n := BodyLength(s[1..]);
    if IsOpen(s[0]) && n + 1 < |s| && IsClose(s[n + 1]) then Some(Group(s[0], s[1..n + 1], s[n + 1])) else None
  }

  /** The groups a global search for `open body close` finds, from left to right. */
  function Groups(s: string): seq<Group>
    decreases |s|
  {
    if s == "" then []
    else
      var g := GroupHere(s);
      if g.Some? then [g.value] + Groups(s[|g.value.body| + 2..]) else Groups(s[1..])
  }

  function SplitAt(s: string, c: char): (parts: seq<string>)
    ensures parts != []
  {
    if s == "" then [""]
    else if s[0] == c then [""] + SplitAt(s[1..], c)
    else
      var rest := SplitAt(s[1..], c);
      [[s[0]] + rest[0]] + rest[1..]
  }

  /** One group as an interval; more than one comma, or an inexact single version, is an error. */
  function Read(g: Group): Option<Interval> {
    var parts := SplitAt(g.body, ',');
    var lo := Trim(parts[0]);
    if |parts| > 2 then None
    else if |parts| == 1 then
      if g.open == '[' && g.close == ']' && lo != "" then Some(Interval(lo, true, lo, true)) else None
    else Some(Interval(lo, g.open == '[', Trim(parts[1]), g.close == ']'))
  }

  function ReadAll(gs: seq<Group>): Option<seq<Interval>> {
    if gs == [] then Some([])
    else
      var rest, last := ReadAll(gs[..|gs| - 1]), Read(gs[|gs| - 1]);
      if rest.None? || last.None? then None else Some(rest.value + [last.value])
  }

  /** What the text means as a range; None when it is not one. */
  function Parsed(s: string): Option<seq<Interval>> {
    if !IsVersionRange(s) then None
    else
      var all := ReadAll(Groups(s));
      if all.None? || all.value == [] then None else all
  }

  lemma {:induction false} ReadAllFails(gs: seq<Group>, k: nat)
    requires k < |gs| && Read(gs[k]).None?
    ensures ReadAll(gs).None?
  {
    if k < |gs| - 1 { ReadAllFails(gs[..|gs| - 1], k); }
  }

  /** A group just found, and those of the text after it. */
  function Ahead(g: Option<Group>, rest: string): seq<Group> {
    if g.None? then [] else [g.value] + Groups(rest)
  }

  /** The next group of the text, and the text after it. */
  method NextGroup(s: string) returns (g: Option<Group>, rest: string)
    ensures Groups(s) == Ahead(g, rest) && (g.Some? ==> |rest| < |s|)
  {
    hide GroupHere;
    rest := s;
    while rest != ""
      invariant |rest| <= |s| && Groups(rest) == Groups(s)
      decreases |rest|
    {
      g := GroupHere(rest);
      if g.Some? { return g, rest[|g.value.body| + 2..]; }
      rest := rest[1..];
    }
    g := None;
  }

  lemma ReadAllSnoc(gs: seq<Group>, g: Group)
    ensures ReadAll(gs + [g]) ==
            if ReadAll(gs).None? || Read(g).None? then None else Some(ReadAll(gs).value + [Read(g).value])
  {
    assert (gs + [g])[..|gs|] == gs;
  }

  /** One unreadable group spoils the whole. */
  lemma Spoilt(s: string, seen: seq<Group>, g: Group, rest: string)
    requires Groups(s) == seen + Ahead(Some(g), rest) && Read(g).None?
    ensures Parsed(s).None?
  {
    hide Groups, Read;
    assert Groups(s)[|seen|] == g;
    ReadAllFails(Groups(s), |seen|);
  }

  lemma OneRead(s: string, seen: seq<Group>, g: Group, rest: string)
    requires Groups(s) == seen + Ahead(Some(g), rest) && ReadAll(seen).Some? && Read(g).Some?
    ensures Groups(s) == (seen + [g]) + Groups(rest) && ReadAll(seen + [g]) == Some(ReadAll(seen).value + [Read(g).value])
  {
    ReadAllSnoc(seen, g);
    hide Groups, Read, ReadAll;
    assert seen + ([g] + Groups(rest)) == (seen + [g]) + Groups(rest);
  }

  lemma AllRead(s: string, seen: seq<Group>)
    requires IsVersionRange(s) && Groups(s) == seen && ReadAll(seen).Some?
    ensures Parsed(s) == if ReadAll(seen).value == [] then None else ReadAll(seen)
  {
    hide Groups, ReadAll, IsVersionRange;
  }

  method ParseVersionRange(s: string) returns (intervals: Option<seq<Interval>>)
    ensures intervals == Parsed(s)
  {
    hide Groups, ReadAll, Read, IsVersionRange, Ahead;
    if !IsVersionRange(s) { return None; }
    hide Parsed;
    var found: seq<Interval> := [];
    ghost var seen: seq<Group> := [];
    var g, rest := NextGroup(s);
    NothingRead();
    assert [] + Ahead(g, rest) == Ahead(g, rest);
    while g.Some?
      invariant Groups(s) == seen + Ahead(g, rest) && ReadAll(seen) == Some(found)
      decreases if g.Some? then |rest| + 1 else 0
    {
      var r := Read(g.value);
      if r.None? {
        Spoilt(s, seen, g.value, rest);
        return None;
      }
      OneRead(s, seen, g.value, rest);
      found, seen := found + [r.value], seen + [g.value];
      g, rest := NextGroup(rest);
    }
    NothingAhead(seen, rest);
    AllRead(s, seen);
    return if found == [] then None else Some(found);
  }

  lemma NothingRead()
    ensures ReadAll([]) == Some([])
  {
  }

  lemma NothingAhead(seen: seq<Group>, rest: string)
    ensures seen + Ahead(None, rest) == seen
  {
  }

  // ---- Writing a range and reading it back ----

  predicate IsBlank(s: string) {
    forall i | 0 <= i < |s| :: s[i] == ' ' || s[i] == '\t' || s[i] == '\n' || s[i] == '\r'
  }

  predicate OneLine(s: string) {
    forall i | 0 <= i < |s| :: s[i] != '\n' && s[i] != '\r'
  }

  predicate NoBracket(s: string) {
    forall i | 0 <= i < |s| :: s[i] != '[' && s[i] != '(' && s[i] != ']' && s[i] != ')'
  }

  predicate IsSnug(s: string) {
    s != "" ==> !IsSpace(s[0]) && !IsSpace(s[|s| - 1])
  }

  /** A bound as it can stand in a range: no bracket, comma, or surrounding space. */
  predicate IsBound(b: string) {
    NoBracket(b) && OneLine(b) && ',' !in b && IsSnug(b)
  }

  predicate IsPad(s: string) {
    IsBlank(s) && OneLine(s)
  }

  /** How one interval is spelled: both bounds with white space around each, or a pinned version. */
  datatype Spelling =
    | Both(beforeLower: string, afterLower: string, beforeUpper: string, afterUpper: string)
    | Pin(before: string, after: string)

  /** An interval, its spelling, and the text between it and the next one. */
  datatype Written = Written(r: Interval, spelling: Spelling, gap: string)

  predicate IsWritten(w: Written) {
    && IsBound(w.r.lower) && IsBound(w.r.upper) && NoBracket(w.gap) && OneLine(w.gap)
    && match w.spelling
       case Both(a, b, c, d) => IsPad(a) && IsPad(b) && IsPad(c) && IsPad(d)
       case Pin(a, b) => IsPad(a) && IsPad(b) && w.r.lower != "" && w.r == Interval(w.r.lower, true, w.r.lower, true)
  }

  predicate AreWritten(ws: seq<Written>) {
    forall i | 0 <= i < |ws| :: IsWritten(ws[i])
  }

  function GroupOf(w: Written): Group {
    Group(
      if w.r.lowerInc then '[' else '(',
      match w.spelling
      case Both(a, b, c, d) => (a + w.r.lower + b) + "," + (c + w.r.upper + d)
      case Pin(a, b) => a + w.r.lower + b,
      if w.r.upperInc then ']' else ')')
  }

  function Write(g: Group): string {
    [g.open] + g.body + [g.close]
  }

  function WriteAll(ws: seq<Written>): string
    requires ws != []
  {
    if |ws| == 1 then Write(GroupOf(ws[0])) else Write(GroupOf(ws[0])) + (ws[0].gap + WriteAll(ws[1..]))
  }

  function Intervals(ws: seq<Written>): seq<Interval> {
    seq(|ws|, i requires 0 <= i < |ws| => ws[i].r)
  }

  lemma {:induction false} SplitBound(b: string, rest: string)
    requires ',' !in b
    ensures SplitAt(b + "," + rest, ',') == [b] + SplitAt(rest, ',')
  {
    var s := b + "," + rest;
    if b == "" {
      assert s[1..] == rest;
    } else {
      assert s[1..] == b[1..] + "," + rest;
      SplitBound(b[1..], rest);
      var split := SplitAt(s[1..], ',');
      assert split[0] == b[1..] && split[1..] == SplitAt(rest, ',');
      assert [b[0]] + b[1..] == b;
    }
  }

  lemma {:induction false} SplitNone(b: string)
    requires ',' !in b
    ensures SplitAt(b, ',') == [b]
  {
    if b != "" {
      SplitNone(b[1..]);
      assert [b[0]] + b[1..] == b && [b[1..]][1..] == [];
    }
  }

  lemma {:induction false} TrimLeftPad(pad: string, s: string)
    requires IsBlank(pad)
    ensures TrimLeft(pad + s) == TrimLeft(s)
  {
    if pad == "" {
      assert pad + s == s;
    } else {
      assert (pad + s)[1..] == pad[1..] + s;
      TrimLeftPad(pad[1..], s);
    }
  }

  lemma {:induction false} TrimRightPad(s: string, pad: string)
    requires IsBlank(pad)
    ensures TrimRight(s + pad) == TrimRight(s)
  {
    if pad == "" {
      assert s + pad == s;
    } else {
      var t := s + pad;
      assert t[..|t| - 1] == s + pad[..|pad| - 1];
      TrimRightPad(s, pad[..|pad| - 1]);
    }
  }

  lemma TrimPadded(before: string, s: string, after: string)
    requires IsBlank(before) && IsBlank(after) && IsSnug(s)
    ensures Trim(before + s + after) == s
  {
    assert before + s + after == before + (s + after);
    TrimLeftPad(before, s + after);
    if s == "" {
      TrimLeftPad(after, "");
      assert s + after == after + "";
    } else {
      assert TrimLeft(s + after) == s + after;
      TrimRightPad(s, after);
    }
  }

  lemma ReadWritten(w: Written)
    requires IsWritten(w)
    ensures Read(GroupOf(w)) == Some(w.r)
  {
    hide Trim, SplitAt;
    match w.spelling
    case Both(a, b, c, d) =>
      SplitBound(a + w.r.lower + b, c + w.r.upper + d);
      SplitNone(c + w.r.upper + d);
      TrimPadded(a, w.r.lower, b);
      TrimPadded(c, w.r.upper, d);
    case Pin(a, b) =>
      SplitNone(a + w.r.lower + b);
      TrimPadded(a, w.r.lower, b);
  }

  predicate IsGroup(g: Group) {
    IsOpen(g.open) && IsClose(g.close) && NoBracket(g.body)
  }

  lemma WrittenIsGroup(w: Written)
    requires IsWritten(w)
    ensures IsGroup(GroupOf(w)) && OneLine(GroupOf(w).body)
  {
  }

  lemma {:induction false} BodyOf(body: string, c: char, rest: string)
    requires NoBracket(body) && IsBracket(c)
    ensures BodyLength(body + [c] + rest) == |body|
  {
    var s := body + [c] + rest;
    if body != "" {
      assert s[1..] == body[1..] + [c] + rest;
      BodyOf(body[1..], c, rest);
    }
  }

  lemma GroupHereOf(g: Group, rest: string)
    requires IsGroup(g)
    ensures GroupHere(Write(g) + rest) == Some(g)
  {
    var s := Write(g) + rest;
    assert s[1..] == g.body + [g.close] + rest;
    BodyOf(g.body, g.close, rest);
    hide BodyLength, NoBracket;
    assert s[1..|g.body| + 1] == g.body && s[|g.body| + 1] == g.close;
  }

  /** A group written out is the first one found. */
  lemma GroupsOfGroup(g: Group, rest: string)
    requires IsGroup(g)
    ensures Groups(Write(g) + rest) == [g] + Groups(rest)
  {
    var s := Write(g) + rest;
    GroupHereOf(g, rest);
    hide GroupHere, NoBracket;
    assert s[|g.body| + 2..] == rest;
  }

  lemma {:induction false} GapSkipped(gap: string, s: string)
    requires NoBracket(gap)
    ensures Groups(gap + s) == Groups(s)
  {
    if gap == "" {
      assert gap + s == s;
    } else {
      assert GroupHere(gap + s) == None;
      hide GroupHere;
      assert (gap + s)[1..] == gap[1..] + s;
      GapSkipped(gap[1..], s);
    }
  }

  lemma {:induction false} ReadAllCons(g: Group, gs: seq<Group>)
    ensures ReadAll([g] + gs) ==
            if Read(g).None? || ReadAll(gs).None? then None else Some([Read(g).value] + ReadAll(gs).value)
  {
    var all := [g] + gs;
    if gs == [] {
      assert all == [g] && all[..0] == [] && ReadAll([]) == Some([]);
      if Read(g).Some? { assert [] + [Read(g).value] == [Read(g).value] + []; }
    } else {
      var most, last := gs[..|gs| - 1], gs[|gs| - 1];
      ReadAllCons(g, most);
      assert all[..|all| - 1] == [g] + most && all[|all| - 1] == last;
      hide Read;
      if Read(g).Some? && ReadAll(most).Some? && Read(last).Some? {
        assert [Read(g).value] + (ReadAll(most).value + [Read(last).value]) == ([Read(g).value] + ReadAll(most).value) + [Read(last).value];
      }
    }
  }

  lemma {:induction false} GroupsReadBack(ws: seq<Written>, after: string)
    requires ws != [] && AreWritten(ws) && NoBracket(after)
    ensures ReadAll(Groups(WriteAll(ws) + after)) == Some(Intervals(ws))
    decreases |ws|
  {
    hide Groups, ReadAll, Read, IsWritten, GroupOf, Write, NoBracket;
    ReadWritten(ws[0]);
    if |ws| == 1 {
      GroupsOfLast(ws[0], after);
      ReadAllCons(GroupOf(ws[0]), []);
      NoGroups();
      assert Intervals(ws) == [ws[0].r] + [];
    } else {
      GroupsOfFirst(ws, after);
      GroupsReadBack(ws[1..], after);
      ReadAllCons(GroupOf(ws[0]), Groups(WriteAll(ws[1..]) + after));
      assert Intervals(ws) == [ws[0].r] + Intervals(ws[1..]);
    }
  }

  lemma NoGroups()
    ensures Groups("") == [] && ReadAll([]) == Some([])
  {
  }

  lemma GroupsOfLast(w: Written, after: string)
    requires IsWritten(w) && NoBracket(after)
    ensures Groups(Write(GroupOf(w)) + after) == [GroupOf(w)] + []
  {
    WrittenIsGroup(w);
    hide Groups, GroupOf, Write, NoBracket;
    GroupsOfGroup(GroupOf(w), after);
    GapSkipped(after, "");
    NoGroups();
    assert after + "" == after;
  }

  lemma GroupsOfFirst(ws: seq<Written>, after: string)
    requires |ws| > 1 && IsWritten(ws[0])
    ensures Groups(WriteAll(ws) + after) == [GroupOf(ws[0])] + Groups(WriteAll(ws[1..]) + after)
  {
    WrittenIsGroup(ws[0]);
    GapFree(ws[0]);
    var w, more := ws[0], WriteAll(ws[1..]);
    assert WriteAll(ws) == Write(GroupOf(w)) + (w.gap + more);
    hide *;
    GroupThenGap(GroupOf(w), w.gap, more, after);
  }

  /** A group, a gap and more text: the group is found first, then what the text holds. */
  lemma GroupThenGap(g: Group, gap: string, more: string, after: string)
    requires IsGroup(g) && NoBracket(gap)
    ensures Groups(Write(g) + (gap + more) + after) == [g] + Groups(more + after)
  {
    hide *;
    Regrouped(Write(g), gap + more, after);
    Regrouped(gap, more, after);
    GroupsOfGroup(g, gap + (more + after));
    GapSkipped(gap, more + after);
  }

  predicate IsShaped(s: string) {
    |s| >= 2 && IsOpen(s[0]) && IsClose(s[|s| - 1]) && OneLine(s)
  }

  lemma WriteIsShaped(w: Written)
    requires IsWritten(w)
    ensures IsShaped(Write(GroupOf(w)))
  {
    WrittenIsGroup(w);
    hide GroupOf, IsWritten;
  }

  lemma ShapedJoin(a: string, gap: string, b: string)
    requires IsShaped(a) && IsShaped(b) && OneLine(gap)
    ensures IsShaped(a + (gap + b))
  {
    var s := a + (gap + b);
    assert s[0] == a[0] && s[|s| - 1] == b[|b| - 1];
  }

  lemma {:induction false} WrittenShape(ws: seq<Written>)
    requires ws != [] && AreWritten(ws)
    ensures IsShaped(WriteAll(ws))
  {
    WriteIsShaped(ws[0]);
    assert OneLine(ws[0].gap);
    hide IsWritten, IsShaped, Write, GroupOf, OneLine;
    if |ws| > 1 {
      WrittenShape(ws[1..]);
      ShapedJoin(Write(GroupOf(ws[0])), ws[0].gap, WriteAll(ws[1..]));
    }
  }

  lemma ShapedIsRange(before: string, s: string, after: string)
    requires IsBlank(before) && IsBlank(after) && IsShaped(s)
    ensures IsVersionRange(before + s + after)
  {
    TrimPadded(before, s, after);
    hide Trim;
  }

  /**
   * A union of intervals survives being written and read back: with either kind of group, white
   * space around the bounds and the whole, and any text without a bracket between the groups.
   */
  lemma ParseOfWritten(before: string, ws: seq<Written>, after: string)
    requires ws != [] && AreWritten(ws) && IsBlank(before) && IsBlank(after)
    ensures Parsed(before + WriteAll(ws) + after) == Some(Intervals(ws))
  {
    hide Groups, ReadAll, WriteAll, IsVersionRange, IsWritten, NoBracket, IsBlank, Parsed, IsShaped;
    var s := WriteAll(ws) + after;
    WrittenShape(ws);
    ShapedIsRange(before, WriteAll(ws), after);
    BlankHasNoBracket(before);
    BlankHasNoBracket(after);
    GroupsReadBack(ws, after);
    GapSkipped(before, s);
    assert before + WriteAll(ws) + after == before + s;
    AllRead(before + s, Groups(s));
    assert |Intervals(ws)| == |ws|;
  }

  lemma BlankHasNoBracket(s: string)
    requires IsBlank(s)
    ensures NoBracket(s)
  {
  }

  /** "[1.0,2.0)", "(,1.0]" and their like, and the pinned "[1.0]", mean what their brackets say. */
  lemma PlainRanges(lo: string, hi: string)
    requires IsBound(lo) && IsBound(hi)
    ensures Parsed("[" + lo + "," + hi + "]") == Some([Interval(lo, true, hi, true)])
    ensures Parsed("[" + lo + "," + hi + ")") == Some([Interval(lo, true, hi, false)])
    ensures Parsed("(" + lo + "," + hi + "]") == Some([Interval(lo, false, hi, true)])
    ensures Parsed("(" + lo + "," + hi + ")") == Some([Interval(lo, false, hi, false)])
    ensures lo != "" ==> Parsed("[" + lo + "]") == Some([Interval(lo, true, lo, true)])
  {
    PlainRange(Interval(lo, true, hi, true));
    PlainRange(Interval(lo, true, hi, false));
    PlainRange(Interval(lo, false, hi, true));
    PlainRange(Interval(lo, false, hi, false));
    if lo != "" { PinnedRange(lo); }
    hide Parsed, IsBound;
  }

  function Plainly(r: Interval): Written {
    Written(r, Both("", "", "", ""), "")
  }

  lemma PlainRange(r: Interval)
    requires IsBound(r.lower) && IsBound(r.upper)
    ensures Parsed((if r.lowerInc then "[" else "(") + r.lower + "," + r.upper + (if r.upperInc then "]" else ")")) == Some([r])
  {
    PlainIsWritten(r);
    hide Parsed, IsBound, AreWritten, WriteAll, IsBlank, Plainly;
    ParseOfWritten("", [Plainly(r)], "");
    PlainText(r);
  }

  lemma PlainIsWritten(r: Interval)
    requires IsBound(r.lower) && IsBound(r.upper)
    ensures AreWritten([Plainly(r)]) && IsBlank("") && Intervals([Plainly(r)]) == [r]
  {
  }

  lemma PlainText(r: Interval)
    ensures "" + WriteAll([Plainly(r)]) + "" == (if r.lowerInc then "[" else "(") + r.lower + "," + r.upper + (if r.upperInc then "]" else ")")
  {
    var g := GroupOf(Plainly(r));
    PlainBody(r);
    var open, close := if r.lowerInc then "[" else "(", if r.upperInc then "]" else ")";
    assert open == [g.open] && close == [g.close];
    assert WriteAll([Plainly(r)]) == [g.open] + g.body + [g.close];
    hide *;
    assert open + (r.lower + "," + r.upper) + close == open + r.lower + "," + r.upper + close;
  }

  lemma PlainBody(r: Interval)
    ensures GroupOf(Plainly(r)).body == r.lower + "," + r.upper
  {
    assert "" + r.lower + "" == r.lower && "" + r.upper + "" == r.upper;
  }

  lemma PinnedRange(v: string)
    requires IsBound(v) && v != ""
    ensures Parsed("[" + v + "]") == Some([Interval(v, true, v, true)])
  {
    hide Parsed, IsBound;
    var w := Written(Interval(v, true, v, true), Pin("", ""), "");
    assert IsBlank("") && OneLine("") && NoBracket("");
    ParseOfWritten("", [w], "");
    assert "" + v + "" == v;
    assert "" + WriteAll([w]) + "" == WriteAll([w]) == "[" + v + "]";
    assert Intervals([w]) == [w.r];
  }

  // ---- Texts that are no range ----

  /** What stands before a group: written ones, each with the text after it. */
  function Before(ws: seq<Written>): string {
    if ws == [] then "" else Write(GroupOf(ws[0])) + (ws[0].gap + Before(ws[1..]))
  }

  /** A group with more than one comma, or one that pins a version but not in square brackets, or pins nothing. */
  ghost predicate IsUnreadable(g: Group) {
    && IsGroup(g)
    && ((exists a, b, c :: g.body == a + "," + b + "," + c && ',' !in a && ',' !in b)
        || (',' !in g.body && (g.open != '[' || g.close != ']' || IsBlank(g.body))))
  }

  lemma UnreadableIsNotRead(g: Group)
    requires IsUnreadable(g)
    ensures Read(g) == None
  {
    if a, b, c :| g.body == a + "," + b + "," + c && ',' !in a && ',' !in b {
      assert g.body == a + "," + (b + "," + c);
      SplitBound(a, b + "," + c);
      SplitBound(b, c);
    } else {
      SplitNone(g.body);
      if IsBlank(g.body) {
        TrimPadded(g.body, "", "");
        assert g.body + "" + "" == g.body;
      }
    }
  }

  function GroupsOf(ws: seq<Written>): seq<Group> {
    if ws == [] then [] else [GroupOf(ws[0])] + GroupsOf(ws[1..])
  }

  lemma {:induction false} GroupsAfter(ws: seq<Written>, rest: string)
    requires AreWritten(ws)
    ensures Groups(Before(ws) + rest) == GroupsOf(ws) + Groups(rest)
  {
    hide Groups, GroupOf, Write, NoBracket, IsWritten;
    if ws == [] {
      assert Before(ws) + rest == rest && [] + Groups(rest) == Groups(rest);
    } else {
      GroupsAfter(ws[1..], rest);
      FirstGroupBefore(ws, rest);
      assert ([GroupOf(ws[0])] + GroupsOf(ws[1..])) + Groups(rest) == [GroupOf(ws[0])] + (GroupsOf(ws[1..]) + Groups(rest));
    }
  }

  lemma FirstGroupBefore(ws: seq<Written>, rest: string)
    requires ws != [] && IsWritten(ws[0])
    ensures Groups(Before(ws) + rest) == [GroupOf(ws[0])] + Groups(Before(ws[1..]) + rest)
  {
    WrittenIsGroup(ws[0]);
    GapFree(ws[0]);
    var w, more := ws[0], Before(ws[1..]);
    assert Before(ws) == Write(GroupOf(w)) + (w.gap + more);
    hide *;
    GroupThenGap(GroupOf(w), w.gap, more, rest);
  }

  lemma GapFree(w: Written)
    requires IsWritten(w)
    ensures NoBracket(w.gap)
  {
  }

  /** One unreadable group, wherever it stands, makes the whole text no range. */
  lemma OneBadGroup(before: string, ws: seq<Written>, g: Group, after: string)
    requires NoBracket(before) && AreWritten(ws) && IsUnreadable(g)
    ensures Parsed(before + Before(ws) + Write(g) + after) == None
  {
    UnreadableIsNotRead(g);
    UnreadableIsGroup(g);
    hide *;
    Regrouped(before + Before(ws), Write(g), after);
    Regrouped(before, Before(ws), Write(g) + after);
    GapSkipped(before, Before(ws) + (Write(g) + after));
    GroupsAfter(ws, Write(g) + after);
    GroupsOfGroup(g, after);
    BadAmong(before + Before(ws) + Write(g) + after, GroupsOf(ws), g, Groups(after));
  }

  lemma UnreadableIsGroup(g: Group)
    requires IsUnreadable(g)
    ensures IsGroup(g)
  {
  }

  lemma BadAmong(s: string, seen: seq<Group>, g: Group, more: seq<Group>)
    requires Groups(s) == seen + ([g] + more) && Read(g) == None
    ensures Parsed(s) == None
  {
    hide Groups, Read, IsVersionRange;
    assert Groups(s)[|seen|] == g;
    ReadAllFails(Groups(s), |seen|);
  }

  /** Nor is a text that, white space around it aside, does not begin and end with a bracket, or has a line break inside. */
  lemma NotBracketed(before: string, t: string, after: string)
    requires IsBlank(before) && IsBlank(after) && IsSnug(t)
    requires t == "" || |t| == 1 || t[0] !in "[(" || t[|t| - 1] !in "])" || '\n' in t || '\r' in t
    ensures Parsed(before + t + after) == None
  {
    TrimPadded(before, t, after);
    hide Trim;
    assert "[("[0] == '[' && "[("[1] == '(' && "])"[0] == ']' && "])"[1] == ')';
  }

  // ---- Resolving ----

  predicate Inside(cmp: (string, string) -> int, v: string, r: Interval) {
    && (r.lower != "" ==> cmp(v, r.lower) > 0 || (r.lowerInc && cmp(v, r.lower) == 0))
    && (r.upper != "" ==> cmp(v, r.upper) < 0 || (r.upperInc && cmp(v, r.upper) == 0))
  }

  predicate VersionInRange(cmp: (string, string) -> int, v: string, rs: seq<Interval>) {
    exists i :: 0 <= i < |rs| && Inside(cmp, v, rs[i])
  }

  /** A release the range admits. */
  predicate Eligible(cmp: (string, string) -> int, isSnapshot: string -> bool, v: string, rs: seq<Interval>) {
    !isSnapshot(v) && VersionInRange(cmp, v, rs)
  }

  /** A group admits what its brackets say: a bound itself only behind a square one; a missing bound nothing is asked of. */
  predicate Admits(cmp: (string, string) -> int, v: string, r: Interval) {
    && (r.lower == "" || if r.lowerInc then cmp(v, r.lower) >= 0 else cmp(v, r.lower) > 0)
    && (r.upper == "" || if r.upperInc then cmp(v, r.upper) <= 0 else cmp(v, r.upper) < 0)
  }

  /** Of a written union of intervals, the releases that one of them admits are eligible. */
  lemma EligibleWritten(cmp: (string, string) -> int, isSnapshot: string -> bool, v: string, before: string, ws: seq<Written>, after: string)
    requires ws != [] && AreWritten(ws) && IsBlank(before) && IsBlank(after)
    ensures Parsed(before + WriteAll(ws) + after).Some?
    ensures Eligible(cmp, isSnapshot, v, Parsed(before + WriteAll(ws) + after).value) <==>
              !isSnapshot(v) && exists w :: w in ws && Admits(cmp, v, w.r)
  {
    hide Parsed, WriteAll, IsWritten, IsBlank;
    ParseOfWritten(before, ws, after);
    var rs := Intervals(ws);
    if i :| 0 <= i < |rs| && Inside(cmp, v, rs[i]) { assert ws[i] in ws && Admits(cmp, v, ws[i].r); }
    if w :| w in ws && Admits(cmp, v, w.r) {
      var i :| 0 <= i < |ws| && ws[i] == w;
      assert Inside(cmp, v, rs[i]);
    }
  }

  /** The comparison ranks the published versions, whatever it does to others. */
  ghost predicate Ranked(cmp: (string, string) -> int, available: seq<string>) {
    exists ok: string -> bool :: RanksOn(cmp, ok) && forall v | v in available :: ok(v)
  }

  /** The highest published release inside the range, when there is one. */
  method ResolveVersionRange(cmp: (string, string) -> int, isSnapshot: string -> bool, range: string, available: seq<string>)
    returns (best: Option<string>)
    ensures Parsed(range).None? ==> best == None
    ensures Parsed(range).Some? ==>
              && (best.None? <==> forall v | v in available :: !Eligible(cmp, isSnapshot, v, Parsed(range).value))
              && (best.Some? ==> best.value in available && Eligible(cmp, isSnapshot, best.value, Parsed(range).value))
              && (best.Some? && Ranked(cmp, available) ==>
                    forall v | v in available && Eligible(cmp, isSnapshot, v, Parsed(range).value) :: cmp(v, best.value) <= 0)
  {
    var intervals := ParseVersionRange(range);
    if intervals.None? { return None; }
    hide Parsed, Eligible;
    var hits: seq<string> := [];
    for i := 0 to |available|
      invariant forall v :: v in hits <==> v in available[..i] && Eligible(cmp, isSnapshot, v, intervals.value)
    {
      if Eligible(cmp, isSnapshot, available[i], intervals.value) { hits := hits + [available[i]]; }
    }
    assert available[..|available|] == available;
    best := Highest(cmp, hits);
    if hits != [] {
      assert hits[0] in hits;
      HighestIsOneOf(cmp, hits);
      if ok: string -> bool :| RanksOn(cmp, ok) && forall v | v in available :: ok(v) { HighestIsHighest(cmp, ok, hits); }
    }
  }

  lemma HighestIsOneOf(cmp: (string, string) -> int, versions: seq<string>)
    requires versions != []
    ensures Highest(cmp, versions).Some? && Highest(cmp, versions).value in versions
  {
    var sorted := SortBy(cmp, versions);
    assert sorted[|sorted| - 1] in multiset(sorted);
  }
}
