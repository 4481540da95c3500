/** What part sequences and emitted values match.

    A value with wildcards is compared with a whole string: `*` takes any run,
    `?` one character.  A value without is compared literally. */
module Wildcards {
  import opened Options
  import opened RegexSemantics
  import opened Expansion

  // -------------------------------------------------------------------- values

  ghost predicate GlobMatch(fold: char -> char, v: string, t: string) {
    if v == "" then t == ""
    else if v[0] == '*' then exists k :: 0 <= k <= |t| && GlobMatch(fold, v[1..], t[k..])
    else t != "" && (v[0] == '?' || fold(v[0]) == fold(t[0])) && GlobMatch(fold, v[1..], t[1..])
  }

  ghost predicate ValueMatches(fold: char -> char, v: string, wildcard: bool, t: string) {
    if wildcard then GlobMatch(fold, v, t) else SameFolded(fold, v, t)
  }

  ghost predicate SomeValueMatches(fold: char -> char, values: seq<string>, wildcard: bool, t: string) {
    exists k :: 0 <= k < |values| && ValueMatches(fold, values[k], wildcard, t)
  }

  predicate NoWildcardIn(v: string) {
    forall k :: 0 <= k < |v| ==> v[k] != '*' && v[k] != '?'
  }

  // --------------------------------------------------------------------- parts

  ghost predicate LadderTakes(fold: char -> char, rung: string, t: string) {
    |rung| <= |t| && SameFolded(fold, rung, t[..|rung|])
  }

  /** A part sequence matches a string.  With no depth each ladder may use any
      rung of its own; with a depth all use the rung of that depth. */
  ghost predicate PartsMatch(fold: char -> char, p: Parts, depth: Option<nat>, t: string) {
    if p == [] then t == ""
    else match p[0]
      case PartLit(c) => t != "" && fold(c) == fold(t[0]) && PartsMatch(fold, p[1..], depth, t[1..])
      case PartOne => t != "" && PartsMatch(fold, p[1..], depth, t[1..])
      case PartAny => exists k :: 0 <= k <= |t| && PartsMatch(fold, p[1..], depth, t[k..])
      case PartLadder(rungs) =>
        exists d :: 0 <= d < |rungs| && (depth.None? || d == depth.value)
          && LadderTakes(fold, rungs[d], t) && PartsMatch(fold, p[1..], depth, t[|rungs[d]|..])
  }

  /** Aligning the depths only removes matches. */
  lemma {:induction false} AlignedIsPositional(fold: char -> char, p: Parts, d: nat, t: string)
    requires PartsMatch(fold, p, Some(d), t)
    ensures PartsMatch(fold, p, None, t)
    decreases |p|
  {
    if p != [] {
      match p[0]
      case PartLit(c) => AlignedIsPositional(fold, p[1..], d, t[1..]);
      case PartOne => AlignedIsPositional(fold, p[1..], d, t[1..]);
      case PartAny =>
        var k :| 0 <= k <= |t| && PartsMatch(fold, p[1..], Some(d), t[k..]);
        AlignedIsPositional(fold, p[1..], d, t[k..]);
      case PartLadder(rungs) => AlignedIsPositional(fold, p[1..], d, t[|rungs[d]|..]);
    }
  }

  /** Without ladders the depth is irrelevant. */
  lemma {:induction false} PositionalIsAligned(fold: char -> char, p: Parts, d: nat, t: string)
    requires !HasLadder(p) && PartsMatch(fold, p, None, t)
    ensures PartsMatch(fold, p, Some(d), t)
    decreases |p|
  {
    if p != [] {
      assert !p[0].PartLadder?;
      assert !HasLadder(p[1..]) by {
        assert forall k :: 0 <= k < |p| - 1 ==> p[1..][k] == p[k + 1];
      }
      match p[0]
      case PartLit(c) => PositionalIsAligned(fold, p[1..], d, t[1..]);
      case PartOne => PositionalIsAligned(fold, p[1..], d, t[1..]);
      case PartAny =>
        var k :| 0 <= k <= |t| && PartsMatch(fold, p[1..], None, t[k..]);
        PositionalIsAligned(fold, p[1..], d, t[k..]);
      case PartLadder(_) =>
    }
  }

  lemma Slices(t: string, m: nat, k: nat)
    requires m <= k <= |t|
    ensures t[m..][..k - m] == t[..k][m..] && t[m..][k - m..] == t[k..] && t[..k][..m] == t[..m]
  {}

  /** Matches of two sequences put together match their concatenation. */
  lemma {:induction false} PartsJoin(fold: char -> char, p: Parts, q: Parts, depth: Option<nat>, t: string, k: nat)
    requires k <= |t| && PartsMatch(fold, p, depth, t[..k]) && PartsMatch(fold, q, depth, t[k..])
    ensures PartsMatch(fold, p + q, depth, t)
    decreases |p|
  {
    if p == [] {
      assert p + q == q && t[k..] == t;
    } else {
      if p[0].PartLadder? {
        LadderJoin(fold, p, q, depth, t, k);
      } else {
        assert (p + q)[1..] == p[1..] + q;
        var m: nat := 1;
        if p[0].PartAny? {
          m :| 0 <= m <= k && PartsMatch(fold, p[1..], depth, t[..k][m..]);
        }
        Slices(t, m, k);
        PartsJoin(fold, p[1..], q, depth, t[m..], k - m);
      }
    }
  }

  lemma {:induction false} LadderJoin(fold: char -> char, p: Parts, q: Parts, depth: Option<nat>, t: string, k: nat)
    requires p != [] && p[0].PartLadder?
    requires k <= |t| && PartsMatch(fold, p, depth, t[..k]) && PartsMatch(fold, q, depth, t[k..])
    ensures PartsMatch(fold, p + q, depth, t)
    decreases |p|, 0
  {
    assert (p + q)[1..] == p[1..] + q;
    var rungs, u := p[0].rungs, t[..k];
    var d :| 0 <= d < |rungs| && (depth.None? || d == depth.value)
      && LadderTakes(fold, rungs[d], u) && PartsMatch(fold, p[1..], depth, u[|rungs[d]|..]);
    var m := |rungs[d]|;
    Slices(t, m, k);
    PartsJoin(fold, p[1..], q, depth, t[m..], k - m);
  }

  /** A match of a concatenation splits. */
  lemma {:induction false} PartsSplit(fold: char -> char, p: Parts, q: Parts, depth: Option<nat>, t: string) returns (k: nat)
    requires PartsMatch(fold, p + q, depth, t)
    ensures k <= |t| && PartsMatch(fold, p, depth, t[..k]) && PartsMatch(fold, q, depth, t[k..])
    decreases |p|
  {
    if p == [] {
      assert p + q == q && t[0..] == t;
      k := 0;
    } else {
      assert (p + q)[1..] == p[1..] + q;
      if p[0].PartLadder? {
        k := LadderSplit(fold, p, q, depth, t);
      } else {
        var m: nat := 1;
        if p[0].PartAny? {
          m :| 0 <= m <= |t| && PartsMatch(fold, p[1..] + q, depth, t[m..]);
        }
        var j := PartsSplit(fold, p[1..], q, depth, t[m..]);
        k := j + m;
        Slices(t, m, k);
      }
    }
  }

  lemma {:induction false} LadderSplit(fold: char -> char, p: Parts, q: Parts, depth: Option<nat>, t: string) returns (k: nat)
    requires p != [] && p[0].PartLadder? && PartsMatch(fold, p + q, depth, t)
    ensures k <= |t| && PartsMatch(fold, p, depth, t[..k]) && PartsMatch(fold, q, depth, t[k..])
    decreases |p|, 0
  {
    assert (p + q)[1..] == p[1..] + q;
    var rungs := p[0].rungs;
    var d :| 0 <= d < |rungs| && (depth.None? || d == depth.value)
      && LadderTakes(fold, rungs[d], t) && PartsMatch(fold, p[1..] + q, depth, t[|rungs[d]|..]);
    var m := |rungs[d]|;
    var j := PartsSplit(fold, p[1..], q, depth, t[m..]);
    k := j + m;
    Slices(t, m, k);
  }

  // ------------------------------------------------------------ rendering is faithful

  /** No part that renders at this depth writes a literal `*` or `?`. */
  predicate SafeAt(p: Parts, depth: nat) {
    && LaddersHave(p, depth)
    && !HasLiteralWildcard(p)
    && forall k :: 0 <= k < |p| && p[k].PartLadder? ==> NoWildcardIn(p[k].rungs[depth])
  }

  lemma SafeTail(p: Parts, depth: nat)
    requires p != [] && SafeAt(p, depth)
    ensures SafeAt(p[1..], depth)
  {
    assert forall k :: 0 <= k < |p| - 1 ==> p[1..][k] == p[k + 1];
  }

  lemma {:induction false} GlobLiteral(fold: char -> char, lit: string, v: string, t: string)
    requires NoWildcardIn(lit)
    ensures GlobMatch(fold, lit + v, t) <==> LadderTakes(fold, lit, t) && GlobMatch(fold, v, t[|lit|..])
  {
    if lit == "" {
      assert lit + v == v && t[0..] == t;
    } else if t != "" {
      assert (lit + v)[1..] == lit[1..] + v;
      GlobLiteral(fold, lit[1..], v, t[1..]);
      if |lit| <= |t| {
        assert t[1..][|lit| - 1..] == t[|lit|..];
        assert t[1..][..|lit| - 1] == t[..|lit|][1..];
        SameFoldedCons(fold, lit, t[..|lit|]);
      }
    }
  }

  lemma SameFoldedCons(fold: char -> char, u: string, v: string)
    requires u != "" && v != ""
    ensures SameFolded(fold, u, v) <==> fold(u[0]) == fold(v[0]) && SameFolded(fold, u[1..], v[1..])
  {
    if fold(u[0]) == fold(v[0]) && SameFolded(fold, u[1..], v[1..]) {
      forall k | 0 <= k < |u| ensures fold(u[k]) == fold(v[k]) {
        if k > 0 { assert u[k] == u[1..][k - 1] && v[k] == v[1..][k - 1]; }
      }
    }
  }

  /** Two adjacent runs are one run. */
  lemma AnyTwice(fold: char -> char, p: Parts, depth: Option<nat>, t: string)
    requires p != [] && p[0].PartAny?
    ensures PartsMatch(fold, [PartAny] + p, depth, t) <==> PartsMatch(fold, p, depth, t)
  {
    var q := [PartAny] + p;
    assert q[1..] == p;
    if PartsMatch(fold, q, depth, t) {
      var k :| 0 <= k <= |t| && PartsMatch(fold, p, depth, t[k..]);
      var m :| 0 <= m <= |t[k..]| && PartsMatch(fold, p[1..], depth, t[k..][m..]);
      assert t[k..][m..] == t[k + m..];
    }
    if PartsMatch(fold, p, depth, t) {
      assert t[0..] == t;
    }
  }

  /** A run in front: on both sides, some suffix matches the rest. */
  lemma AnyInFront(fold: char -> char, p: Parts, depth: nat, v: string, t: string)
    requires forall k :: 0 <= k <= |t| ==> (GlobMatch(fold, v, t[k..]) <==> PartsMatch(fold, p, Some(depth), t[k..]))
    ensures GlobMatch(fold, "*" + v, t) <==> PartsMatch(fold, [PartAny] + p, Some(depth), t)
  {
    assert ("*" + v)[1..] == v && ([PartAny] + p)[1..] == p;
  }

  lemma {:induction false} RenderMatches(fold: char -> char, p: Parts, depth: nat, t: string)
    requires SafeAt(p, depth)
    ensures GlobMatch(fold, Render(p, depth, false), t) <==> PartsMatch(fold, p, Some(depth), t)
    decreases |p|, 0
  {
    if p != [] {
      SafeTail(p, depth);
      var rest := Render(p[1..], depth, false);
      match p[0]
      case PartLit(c) =>
        assert NoWildcardIn([c]);
        assert Render(p, depth, false)[1..] == rest;
        if t != "" { RenderMatches(fold, p[1..], depth, t[1..]); }
      case PartOne =>
        assert Render(p, depth, false)[1..] == rest;
        if t != "" { RenderMatches(fold, p[1..], depth, t[1..]); }
      case PartAny =>
        RenderAfterAny(fold, p[1..], depth, t);
        assert [PartAny] + p[1..] == p;
      case PartLadder(rungs) =>
        GlobLiteral(fold, rungs[depth], rest, t);
        if LadderTakes(fold, rungs[depth], t) { RenderMatches(fold, p[1..], depth, t[|rungs[depth]|..]); }
    }
  }

  lemma {:induction false} RenderAfterAny(fold: char -> char, p: Parts, depth: nat, t: string)
    requires SafeAt(p, depth)
    ensures GlobMatch(fold, "*" + Render(p, depth, true), t) <==> PartsMatch(fold, [PartAny] + p, Some(depth), t)
    decreases |p|, 1
  {
    if p != [] && p[0].PartAny? {
      SafeTail(p, depth);
      AnyTwice(fold, p, Some(depth), t);
      assert [PartAny] + p[1..] == p;
      assert "*" + Render(p, depth, true) == "*" + Render(p[1..], depth, true);
      RenderAfterAny(fold, p[1..], depth, t);
    } else {
      forall k | 0 <= k <= |t|
        ensures GlobMatch(fold, Render(p, depth, true), t[k..]) <==> PartsMatch(fold, p, Some(depth), t[k..])
      {
        RenderMatches(fold, p, depth, t[k..]);
      }
      AnyInFront(fold, p, depth, Render(p, depth, true), t);
    }
  }

  /** Without runs and single-character wildcards a value is its own literal,
      whatever characters it contains. */
  lemma {:induction false} LiteralMatches(fold: char -> char, p: Parts, depth: nat, t: string)
    requires LaddersHave(p, depth) && !UsesWildcard(p)
    ensures SameFolded(fold, Render(p, depth, false), t) <==> PartsMatch(fold, p, Some(depth), t)
    decreases |p|
  {
    if p != [] {
      assert forall k :: 0 <= k < |p| - 1 ==> p[1..][k] == p[k + 1];
      assert !p[0].PartAny? && !p[0].PartOne?;
      var v, rest := Render(p, depth, false), Render(p[1..], depth, false);
      match p[0]
      case PartLit(c) =>
        if t != "" {
          LiteralMatches(fold, p[1..], depth, t[1..]);
          SameFoldedCons(fold, v, t);
          assert v[1..] == rest;
        }
      case PartLadder(rungs) =>
        var m := |rungs[depth]|;
        if m <= |t| {
          LiteralMatches(fold, p[1..], depth, t[m..]);
          SameFoldedAppend(fold, rungs[depth], rest, t);
        }
      case PartAny =>
      case PartOne =>
    }
  }

  lemma SameFoldedAppend(fold: char -> char, u: string, v: string, t: string)
    requires |u| <= |t|
    ensures SameFolded(fold, u + v, t) <==> SameFolded(fold, u, t[..|u|]) && SameFolded(fold, v, t[|u|..])
  {
    if SameFolded(fold, u + v, t) {
      forall k | 0 <= k < |v| ensures fold(v[k]) == fold(t[|u|..][k]) {
        assert (u + v)[|u| + k] == v[k];
      }
      forall k | 0 <= k < |u| ensures fold(u[k]) == fold(t[..|u|][k]) {
        assert (u + v)[k] == u[k];
      }
    }
    if SameFolded(fold, u, t[..|u|]) && SameFolded(fold, v, t[|u|..]) {
      forall k | 0 <= k < |u + v| ensures fold((u + v)[k]) == fold(t[k]) {
        if k < |u| { assert t[..|u|][k] == t[k]; } else { assert t[|u|..][k - |u|] == t[k]; }
      }
    }
  }

  // ------------------------------------------------------------------ open edges

  lemma {:induction false} GlobStarAtEnd(fold: char -> char, v: string, t: string)
    ensures GlobMatch(fold, v + "*", t) <==> exists j :: 0 <= j <= |t| && GlobMatch(fold, v, t[..j])
  {
    var w := v + "*";
    if v == "" {
      assert w[1..] == "";
      assert t[|t|..] == "" && t[..0] == "";
      assert GlobMatch(fold, w[1..], t[|t|..]);
      assert GlobMatch(fold, v, t[..0]);
    } else if v[0] == '*' {
      assert w[1..] == v[1..] + "*";
      if GlobMatch(fold, w, t) {
        var k :| 0 <= k <= |t| && GlobMatch(fold, w[1..], t[k..]);
        GlobStarAtEnd(fold, v[1..], t[k..]);
        var j :| 0 <= j <= |t[k..]| && GlobMatch(fold, v[1..], t[k..][..j]);
        assert t[..k + j][k..] == t[k..][..j];
        assert GlobMatch(fold, v, t[..k + j]);
      }
      if j :| 0 <= j <= |t| && GlobMatch(fold, v, t[..j]) {
        var k :| 0 <= k <= j && GlobMatch(fold, v[1..], t[..j][k..]);
        assert t[k..][..j - k] == t[..j][k..];
        GlobStarAtEnd(fold, v[1..], t[k..]);
      }
    } else {
      assert w[1..] == v[1..] + "*";
      if t == "" {
        assert forall j :: 0 <= j <= |t| ==> t[..j] == "";
      } else {
        GlobStarAtEnd(fold, v[1..], t[1..]);
        if GlobMatch(fold, w, t) {
          var j :| 0 <= j <= |t[1..]| && GlobMatch(fold, v[1..], t[1..][..j]);
          assert t[..j + 1][1..] == t[1..][..j];
          assert GlobMatch(fold, v, t[..j + 1]);
        }
        if j :| 0 <= j <= |t| && GlobMatch(fold, v, t[..j]) {
          assert t[1..][..j - 1] == t[..j][1..];
        }
      }
    }
  }

  /** A window of the string the value must cover, given which edges are open. */
  ghost predicate Window(t: string, start: bool, end: bool, i: int, j: int) {
    0 <= i <= j <= |t| && (start ==> i == 0) && (end ==> j == |t|)
  }

  /** An open or closed right edge. */
  lemma RightEdge(fold: char -> char, v: string, end: bool, t: string)
    ensures GlobMatch(fold, if end then v else v + "*", t) <==>
            exists j :: 0 <= j <= |t| && (end ==> j == |t|) && GlobMatch(fold, v, t[..j])
  {
    if end {
      assert t[..|t|] == t;
    } else {
      GlobStarAtEnd(fold, v, t);
    }
  }

  lemma DecoratedGlob(fold: char -> char, v: string, start: bool, end: bool, t: string)
    ensures GlobMatch(fold, Decorate(v, start, end), t) <==>
            exists i, j :: Window(t, start, end, i, j) && GlobMatch(fold, v, t[i..j])
  {
    if start { ClosedLeft(fold, v, end, t); } else { OpenLeft(fold, v, end, t); }
  }

  lemma ClosedLeft(fold: char -> char, v: string, end: bool, t: string)
    ensures GlobMatch(fold, Decorate(v, true, end), t) <==>
            exists i, j :: Window(t, true, end, i, j) && GlobMatch(fold, v, t[i..j])
  {
    var w := if end then v else v + "*";
    assert Decorate(v, true, end) == w;
    RightEdge(fold, v, end, t);
    if GlobMatch(fold, w, t) {
      var j :| 0 <= j <= |t| && (end ==> j == |t|) && GlobMatch(fold, v, t[..j]);
      assert t[0..j] == t[..j] && Window(t, true, end, 0, j);
    }
    if i, j :| Window(t, true, end, i, j) && GlobMatch(fold, v, t[i..j]) {
      assert t[0..j] == t[..j];
    }
  }

  lemma OpenLeft(fold: char -> char, v: string, end: bool, t: string)
    ensures GlobMatch(fold, Decorate(v, false, end), t) <==>
            exists i, j :: Window(t, false, end, i, j) && GlobMatch(fold, v, t[i..j])
  {
    var w := if end then v else v + "*";
    var d := Decorate(v, false, end);
    assert d == "*" + w && d[1..] == w;
    if GlobMatch(fold, d, t) {
      var i :| 0 <= i <= |t| && GlobMatch(fold, w, t[i..]);
      RightEdge(fold, v, end, t[i..]);
      var j :| 0 <= j <= |t[i..]| && (end ==> j == |t[i..]|) && GlobMatch(fold, v, t[i..][..j]);
      assert t[i..][..j] == t[i..i + j] && Window(t, false, end, i, i + j);
    }
    if i, j :| Window(t, false, end, i, j) && GlobMatch(fold, v, t[i..j]) {
      assert t[i..][..j - i] == t[i..j];
      RightEdge(fold, v, end, t[i..]);
    }
  }
}
