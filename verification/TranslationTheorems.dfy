/** The fidelity of an accepted translation, for every text and every string:
    nothing is missed, nothing is added, and both together under the label
    "equivalent".  Each side condition stands next to a text that needs it in
    TranslationLimits. */
module TranslationTheorems {
  import opened Options
  import opened RegexSyntax
  import opened RegexReading
  import opened RegexSemantics
  import opened PercentEncoding
  import opened Expansion
  import opened Wildcards
  import opened TranslationMeaning
  import opened Fidelity

  // ------------------------------------------------------------------- anchors

  /** The start anchor belongs to the first branch. */
  function AttachStart(r: Rx): Rx {
    if r.Or? then Or(Seq(Start, r.left), r.right) else Seq(Start, r)
  }

  /** The end anchor belongs to the last branch. */
  function AttachEnd(r: Rx): Rx {
    match r
    case Or(l, rt) => Or(l, AttachEnd(rt))
    case Seq(h, t) => Seq(h, AttachEnd(t))
    case _ => Seq(r, Seq(End, Eps))
  }

  /** The tree of the whole text: concatenation binds the anchors more tightly
      than alternation does. */
  function Anchored(start: bool, r: Rx, end: bool): Rx {
    var e := if end then AttachEnd(r) else r;
    if start then AttachStart(e) else e
  }

  lemma {:induction false} PrintAttachEnd(r: Rx)
    ensures Print(AttachEnd(r)) == Print(r) + "$"
  {
    match r
    case Or(l, rt) => PrintAttachEnd(rt);
    case Seq(h, t) => PrintAttachEnd(t);
    case _ => assert Print(Seq(End, Eps)) == "$" + "";
  }

  lemma {:induction false} AttachEndEnds(fold: char -> char, r: Rx, s: string, i: nat, j: nat)
    requires i <= |s| && !r.Or?
    requires r.Seq? ==> ChainOnly(r.tail)
    ensures j in Ends(fold, AttachEnd(r), s, i) <==> j == |s| && j in Ends(fold, r, s, i)
    decreases r
  {
    if r.Seq? {
      SeqEnds(fold, r.head, r.tail, s, i, j);
      SeqEnds(fold, r.head, AttachEnd(r.tail), s, i, j);
      forall k | i <= k <= |s|
        ensures j in Ends(fold, AttachEnd(r.tail), s, k) <==> j == |s| && j in Ends(fold, r.tail, s, k)
      {
        AttachEndEnds(fold, r.tail, s, k, j);
      }
    } else {
      SeqEnds(fold, r, Seq(End, Eps), s, i, j);
      forall k | i <= k <= |s| ensures j in Ends(fold, Seq(End, Eps), s, k) <==> j == k == |s| {
        SeqEnds(fold, End, Eps, s, k, j);
      }
      if j in Ends(fold, r, s, i) { EndsRange(Ends(fold, r, s, i), i, |s|, j); }
    }
  }

  /** A branch: a chain of terms, as the reader builds it. */
  predicate ChainOnly(r: Rx) {
    r.Eps? || (r.Seq? && ChainOnly(r.tail))
  }

  lemma {:induction false} ConcatIsChain(alnum: char -> bool, r: Rx, depth: nat)
    requires WfConcat(alnum, r, depth)
    ensures ChainOnly(r)
  {
    if r.Seq? { ConcatIsChain(alnum, r.tail, depth); }
  }

  /** Where the anchors cannot be misread: no top-level alternation beside one. */
  predicate AnchorsApart(start: bool, r: Rx, end: bool) {
    r.Or? ==> !start && !end
  }

  /** A window of the string that the body matches. */
  ghost predicate BodyFound(fold: char -> char, start: bool, r: Rx, end: bool, s: string) {
    exists i, j :: Window(s, start, end, i, j) && j in Ends(fold, r, s, i)
  }

  lemma AnchoredEnds(fold: char -> char, alnum: char -> bool, start: bool, r: Rx, end: bool, s: string, i: nat, j: nat)
    requires WfAlternation(alnum, r, 0) && AnchorsApart(start, r, end) && i <= |s|
    ensures j in Ends(fold, Anchored(start, r, end), s, i) <==>
            (start ==> i == 0) && (end ==> j == |s|) && j in Ends(fold, r, s, i)
  {
    var e := if end then AttachEnd(r) else r;
    if end {
      ConcatIsChain(alnum, r, 0);
      AttachEndEnds(fold, r, s, i, j);
    }
    if start {
      SeqEnds(fold, Start, e, s, i, j);
      assert Ends(fold, Start, s, i) == if i == 0 then [i] else [];
    }
  }

  lemma AnchoredFound(fold: char -> char, alnum: char -> bool, start: bool, r: Rx, end: bool, s: string)
    requires WfAlternation(alnum, r, 0) && AnchorsApart(start, r, end)
    ensures Found(fold, Anchored(start, r, end), s) <==> BodyFound(fold, start, r, end, s)
  {
    var whole := Anchored(start, r, end);
    if Found(fold, whole, s) {
      var i :| 0 <= i <= |s| && Ends(fold, whole, s, i) != [];
      var j := Ends(fold, whole, s, i)[0];
      AnchoredEnds(fold, alnum, start, r, end, s, i, j);
      EndsRange(Ends(fold, r, s, i), i, |s|, j);
      assert Window(s, start, end, i, j);
    }
    if BodyFound(fold, start, r, end, s) {
      var i, j :| Window(s, start, end, i, j) && j in Ends(fold, r, s, i);
      AnchoredEnds(fold, alnum, start, r, end, s, i, j);
      assert Ends(fold, whole, s, i) != [];
    }
  }

  // ------------------------------------------------------------------ emission

  /** No rung of a ladder contains a wildcard character. */
  predicate PlainRungs(a: seq<Parts>) {
    forall k :: 0 <= k < |a| ==> forall m :: 0 <= m < |a[k]| && a[k][m].PartLadder? ==>
      forall d :: 0 <= d < |a[k][m].rungs| ==> NoWildcardIn(a[k][m].rungs[d])
  }

  /** Alternative k, every ladder at depth d, matches a window of the string. */
  ghost predicate CoversAt(fold: char -> char, p: Parts, d: nat, start: bool, end: bool, s: string) {
    exists i, j :: Window(s, start, end, i, j) && PartsMatch(fold, p, Some(d), s[i..j])
  }

  lemma ValueCovers(fold: char -> char, a: seq<Parts>, k: nat, d: nat, start: bool, end: bool, wildcard: bool, s: string)
    requires k < |a| && LaddersHave(a[k], d)
    requires wildcard <==> !start || !end || AnyWildcard(a)
    requires wildcard ==> !AnyLiteralWildcard(a) && PlainRungs(a)
    ensures ValueMatches(fold, Decorate(Render(a[k], d, false), start, end), wildcard, s) <==>
            CoversAt(fold, a[k], d, start, end, s)
  {
    var v := Render(a[k], d, false);
    if wildcard {
      assert SafeAt(a[k], d) by { assert !HasLiteralWildcard(a[k]); }
      DecoratedGlob(fold, v, start, end, s);
      forall i, j | Window(s, start, end, i, j)
        ensures GlobMatch(fold, v, s[i..j]) <==> PartsMatch(fold, a[k], Some(d), s[i..j])
      {
        RenderMatches(fold, a[k], d, s[i..j]);
      }
    } else {
      assert Decorate(v, start, end) == v;
      assert !UsesWildcard(a[k]);
      LiteralMatches(fold, a[k], d, s);
      assert s[0..|s|] == s;
      if CoversAt(fold, a[k], d, start, end, s) {
        var i, j :| Window(s, start, end, i, j) && PartsMatch(fold, a[k], Some(d), s[i..j]);
        assert i == 0 && j == |s|;
      }
      if PartsMatch(fold, a[k], Some(d), s) { assert Window(s, start, end, 0, |s|); }
    }
  }

  /** The emitted values: every alternative at every depth, and nothing else. */
  lemma {:induction false} ValuesOrigin(a: seq<Parts>, depths: nat, start: bool, end: bool, v: string)
    requires Aligned(a, depths)
    ensures v in Values(a, depths, start, end) <==>
            exists d, k :: 0 <= d < depths && 0 <= k < |a| && LaddersHave(a[k], d)
              && v == Decorate(Render(a[k], d, false), start, end)
    decreases depths
  {
    hide Render, LaddersHave, Decorate;
    if depths > 0 {
      var last := depths - 1;
      ValuesOrigin(a, last, start, end, v);
      var row := ValuesAt(a, last, start, end);
      if v in row {
        var k :| 0 <= k < |row| && row[k] == v;
        assert LaddersHave(a[k], last);
      }
      if d, k :| 0 <= d < depths && 0 <= k < |a| && LaddersHave(a[k], d) && v == Decorate(Render(a[k], d, false), start, end) {
        if d == last { assert row[k] == v; }
      }
    }
  }

  /** Some value matches exactly when some alternative at some common depth
      covers a window. */
  ghost predicate SomeCovers(fold: char -> char, a: seq<Parts>, depths: nat, start: bool, end: bool, s: string) {
    exists d: nat, k :: d < depths && 0 <= k < |a| && CoversAt(fold, a[k], d, start, end, s)
  }

  lemma EmittedCovers(fold: char -> char, a: seq<Parts>, start: bool, end: bool, s: string)
    requires Emit(a, start, end).Some?
    requires Emit(a, start, end).value.1 ==> PlainRungs(a)
    ensures var (values, wildcard) := Emit(a, start, end).value;
            SomeValueMatches(fold, values, wildcard, s) <==> SomeCovers(fold, a, Depths(a).value, start, end, s)
  {
    DepthsAlign(a);
    var depths := Depths(a).value;
    var (values, wildcard) := Emit(a, start, end).value;
    var all := Values(a, depths, start, end);
    assert values == Unique(all);
    if n :| 0 <= n < |values| && ValueMatches(fold, values[n], wildcard, s) {
      assert values[n] in values;
      ValuesOrigin(a, depths, start, end, values[n]);
      var d, k :| 0 <= d < depths && 0 <= k < |a| && LaddersHave(a[k], d)
        && values[n] == Decorate(Render(a[k], d, false), start, end);
      ValueCovers(fold, a, k, d, start, end, wildcard, s);
    }
    if d: nat, k :| d < depths && 0 <= k < |a| && CoversAt(fold, a[k], d, start, end, s) {
      assert LaddersHave(a[k], d);
      var v := Decorate(Render(a[k], d, false), start, end);
      ValueCovers(fold, a, k, d, start, end, wildcard, s);
      ValuesOrigin(a, depths, start, end, v);
      assert v in values;
      var n :| 0 <= n < |values| && values[n] == v;
    }
  }

  // ------------------------------------------------------------ ladder-free trees

  lemma {:induction false} CrossNoLadder(a: seq<Parts>, b: seq<Parts>)
    requires !AnyLadder(a) && !AnyLadder(b)
    ensures !AnyLadder(Cross(a, b))
  {
    if a != [] {
      assert !HasLadder(a[0]);
      assert forall k :: 0 <= k < |a| - 1 ==> a[1..][k] == a[k + 1];
      CrossNoLadder(a[1..], b);
      forall k | 0 <= k < |b| ensures !HasLadder(a[0] + b[k]) {
        assert !HasLadder(b[k]);
      }
      var first, rest := Prepend(a[0], b), Cross(a[1..], b);
      forall k | 0 <= k < |Cross(a, b)| ensures !HasLadder(Cross(a, b)[k]) {
        if k < |first| { assert Cross(a, b)[k] == first[k]; } else { assert Cross(a, b)[k] == rest[k - |first|]; }
      }
    }
  }

  lemma {:induction false} NotNarrowedNoLadder(alnum: char -> bool, r: Rx)
    requires Expand(alnum, r).Some? && !Narrowed(alnum, r)
    ensures !AnyLadder(Expand(alnum, r).value)
  {
    match r
    case Seq(h, t) =>
      NotNarrowedNoLadder(alnum, h);
      NotNarrowedNoLadder(alnum, t);
      CrossNoLadder(Expand(alnum, h).value, Expand(alnum, t).value);
    case Or(l, rt) =>
      NotNarrowedNoLadder(alnum, l);
      NotNarrowedNoLadder(alnum, rt);
      var a, b := Expand(alnum, l).value, Expand(alnum, rt).value;
      forall k | 0 <= k < |a + b| ensures !HasLadder((a + b)[k]) {
        if k < |a| { assert (a + b)[k] == a[k]; } else { assert (a + b)[k] == b[k - |a|]; }
      }
    case Quant(a, _, _) =>
      NotNarrowedNoLadder(alnum, a);
      var e := Expand(alnum, a).value;
      forall k | 0 <= k < |e| ensures !HasLadder(e[k] + [PartAny]) {
        assert !HasLadder(e[k]);
      }
    case Group(_, b) => NotNarrowedNoLadder(alnum, b);
    case _ =>
  }

  // --------------------------------------------------------------- the theorems

  /** The tree read from the body of an accepted text. */
  function TreeOf(alnum: char -> bool, text: string): Rx
    requires Translate(alnum, text).Some?
  {
    ParseBody(alnum, ReadSource(text).body).value
  }

  /** What the source regex means: the tree of the text, anchors attached where
      the text puts them. */
  function SourceTree(alnum: char -> bool, text: string): Rx
    requires Translate(alnum, text).Some?
  {
    Anchored(ReadSource(text).start, TreeOf(alnum, text), ReadSource(text).end)
  }

  lemma PrintAttachStart(r: Rx)
    ensures Print(AttachStart(r)) == "^" + Print(r)
  {
    if r.Or? {
      assert Print(Seq(Start, r.left)) == "^" + Print(r.left);
      assert "^" + Print(r.left) + "|" + Print(r.right) == "^" + (Print(r.left) + "|" + Print(r.right));
    }
  }

  /** The source tree is a tree of the given text: printing it, after the
      inline flags, gives the text back. */
  lemma SourceTreePrints(alnum: char -> bool, text: string)
    requires Translate(alnum, text).Some?
    ensures PrintFlags(ReadSource(text).flags) + Print(SourceTree(alnum, text)) == text
    ensures WfAlternation(alnum, TreeOf(alnum, text), 0)
  {
    var src, r := ReadSource(text), TreeOf(alnum, text);
    ReadingIsExact(alnum, src.body, r);
    PrintOfReadSource(text);
    PrintAnchored(src, r);
  }

  lemma PrintAnchored(src: Source, r: Rx)
    requires Print(r) == src.body
    ensures Print(Anchored(src.start, r, src.end)) == PrintEdges(src)
  {
    hide Print, AttachStart, AttachEnd;
    PrintAttachEnd(r);
    PrintAttachStart(if src.end then AttachEnd(r) else r);
    var body := if src.end then src.body + "$" else src.body;
    assert PrintEdges(src) == (if src.start then "^" else "") + body;
  }

  predicate AnchorsReadRight(alnum: char -> bool, text: string)
    requires Translate(alnum, text).Some?
  {
    AnchorsApart(ReadSource(text).start, TreeOf(alnum, text), ReadSource(text).end)
  }

  ghost predicate Emitted(fold: char -> char, alnum: char -> bool, text: string, s: string)
    requires Translate(alnum, text).Some?
  {
    SomeValueMatches(fold, Translate(alnum, text).value.values, Translate(alnum, text).value.wildcard, s)
  }

  /** An accepted text, taken apart: its tree expands, and the expansion is
      what is emitted. */
  lemma TranslateEmits(alnum: char -> bool, text: string)
    requires Translate(alnum, text).Some?
    ensures var src, r, res := ReadSource(text), TreeOf(alnum, text), Translate(alnum, text).value;
            && Expand(alnum, r).Some? && WfAlternation(alnum, r, 0)
            && Emit(Expand(alnum, r).value, src.start, src.end) == Some((res.values, res.wildcard))
            && res.lossy == Lossy(alnum, r) && res.narrowed == Narrowed(alnum, r)
  {
    SourceTreePrints(alnum, text);
  }

  lemma CompleteBody(fold: char -> char, alnum: char -> bool, start: bool, r: Rx, end: bool, s: string)
    requires KnowsAscii(alnum) && PlainlyRead(r) && Expand(alnum, r).Some? && !AnyLadder(Expand(alnum, r).value)
    requires BodyFound(fold, start, r, end, s)
    ensures SomeCovers(fold, Expand(alnum, r).value, 1, start, end, s)
  {
    var a := Expand(alnum, r).value;
    var i, j :| Window(s, start, end, i, j) && j in Ends(fold, r, s, i);
    Complete(fold, alnum, r, s, i, j);
    var k :| 0 <= k < |a| && PartsMatch(fold, a[k], None, s[i..j]);
    assert !HasLadder(a[k]);
    PositionalIsAligned(fold, a[k], 0, s[i..j]);
    assert CoversAt(fold, a[k], 0, start, end, s);
  }

  lemma SoundBody(fold: char -> char, alnum: char -> bool, start: bool, r: Rx, end: bool, depths: nat, s: string)
    requires KnowsAscii(alnum) && Exactly(alnum, r)
    requires SomeCovers(fold, Expand(alnum, r).value, depths, start, end, s)
    ensures BodyFound(fold, start, r, end, s)
  {
    var a := Expand(alnum, r).value;
    var d: nat, k :| d < depths && 0 <= k < |a| && CoversAt(fold, a[k], d, start, end, s);
    var i, j :| Window(s, start, end, i, j) && PartsMatch(fold, a[k], Some(d), s[i..j]);
    AlignedIsPositional(fold, a[k], d, s[i..j]);
    Sound(fold, alnum, r, s, i, j);
  }

  /** Generalization never misses: on every accepted text without ladders,
      lossy or not, every string the source finds is matched by some value. */
  lemma NeverMisses(fold: char -> char, alnum: char -> bool, text: string, s: string)
    requires KnowsAscii(alnum) && Translate(alnum, text).Some?
    requires !Translate(alnum, text).value.narrowed
    requires PlainlyRead(TreeOf(alnum, text)) && AnchorsReadRight(alnum, text)
    requires Found(fold, SourceTree(alnum, text), s)
    ensures Emitted(fold, alnum, text, s)
  {
    var src, r := ReadSource(text), TreeOf(alnum, text);
    TranslateEmits(alnum, text);
    NotNarrowedNoLadder(alnum, r);
    NoLadderPlainRungs(Expand(alnum, r).value);
    AnchoredFound(fold, alnum, src.start, r, src.end, s);
    CompleteBody(fold, alnum, src.start, r, src.end, s);
    EmittedCovers(fold, Expand(alnum, r).value, src.start, src.end, s);
  }

  lemma NoLadderPlainRungs(a: seq<Parts>)
    requires !AnyLadder(a)
    ensures PlainRungs(a)
  {
    forall k | 0 <= k < |a| ensures !HasLadder(a[k]) {}
  }

  /** Alignment and exact constructs never over-match: on every accepted text
      that was not generalized, ladders or not, every string a value matches is
      found by the source. */
  lemma NeverAdds(fold: char -> char, alnum: char -> bool, text: string, s: string)
    requires KnowsAscii(alnum) && Translate(alnum, text).Some?
    requires !Translate(alnum, text).value.lossy
    requires var r := TreeOf(alnum, text); PlainlyRead(r) && NoPossessive(r) && NoOptionalDot(alnum, r)
    requires AnchorsReadRight(alnum, text)
    requires Translate(alnum, text).value.wildcard ==> PlainRungs(Expand(alnum, TreeOf(alnum, text)).value)
    requires Emitted(fold, alnum, text, s)
    ensures Found(fold, SourceTree(alnum, text), s)
  {
    var src, r := ReadSource(text), TreeOf(alnum, text);
    TranslateEmits(alnum, text);
    var a := Expand(alnum, r).value;
    EmittedCovers(fold, a, src.start, src.end, s);
    SoundBody(fold, alnum, src.start, r, src.end, Depths(a).value, s);
    AnchoredFound(fold, alnum, src.start, r, src.end, s);
  }

  /** Exactness: a text translated under the label "equivalent" is found in a
      string exactly when some emitted value matches the string. */
  lemma Exactness(fold: char -> char, alnum: char -> bool, text: string, s: string)
    requires KnowsAscii(alnum) && Translate(alnum, text).Some?
    requires !Translate(alnum, text).value.lossy && !Translate(alnum, text).value.narrowed
    requires var r := TreeOf(alnum, text); PlainlyRead(r) && NoPossessive(r) && NoOptionalDot(alnum, r)
    requires AnchorsReadRight(alnum, text)
    ensures Found(fold, SourceTree(alnum, text), s) <==> Emitted(fold, alnum, text, s)
  {
    TranslateEmits(alnum, text);
    NotNarrowedNoLadder(alnum, TreeOf(alnum, text));
    NoLadderPlainRungs(Expand(alnum, TreeOf(alnum, text)).value);
    if Emitted(fold, alnum, text, s) { NeverAdds(fold, alnum, text, s); }
    if Found(fold, SourceTree(alnum, text), s) { NeverMisses(fold, alnum, text, s); }
  }

  // ---------------------------------------------------------- the ladder diagonal

  /** One rung per ladder, chosen position by position. */
  predicate IsChoice(p: Parts, choice: seq<nat>) {
    |choice| == |p| && forall k :: 0 <= k < |p| && p[k].PartLadder? ==> choice[k] < |p[k].rungs|
  }

  /** The value of the positional expansion that a choice selects. */
  function RenderChoice(p: Parts, choice: seq<nat>, lastAny: bool): string
    requires IsChoice(p, choice)
  {
    if p == [] then ""
    else
      assert IsChoice(p[1..], choice[1..]);
      match p[0]
      case PartLadder(rungs) => rungs[choice[0]] + RenderChoice(p[1..], choice[1..], false)
      case PartAny => (if lastAny then "" else "*") + RenderChoice(p[1..], choice[1..], true)
      case PartOne => "?" + RenderChoice(p[1..], choice[1..], false)
      case PartLit(c) => [c] + RenderChoice(p[1..], choice[1..], false)
  }

  /** All ladders of the sequence are taken at depth d. */
  predicate UniformAt(p: Parts, choice: seq<nat>, d: nat) {
    IsChoice(p, choice) && forall k :: 0 <= k < |p| && p[k].PartLadder? ==> choice[k] == d
  }

  lemma {:induction false} UniformRenders(p: Parts, choice: seq<nat>, d: nat, lastAny: bool)
    requires UniformAt(p, choice, d) && LaddersHave(p, d)
    ensures RenderChoice(p, choice, lastAny) == Render(p, d, lastAny)
  {
    if p != [] {
      assert forall k :: 0 <= k < |p| - 1 ==> p[1..][k] == p[k + 1] && choice[1..][k] == choice[k + 1];
      UniformRenders(p[1..], choice[1..], d, p[0].PartAny?);
    }
  }

  ghost predicate OnDiagonal(p: Parts, d: nat, start: bool, end: bool, v: string) {
    exists choice :: UniformAt(p, choice, d) && v == Decorate(RenderChoice(p, choice, false), start, end)
  }

  lemma DiagonalRenders(p: Parts, d: nat, start: bool, end: bool, v: string)
    requires LaddersHave(p, d)
    ensures OnDiagonal(p, d, start, end, v) <==> v == Decorate(Render(p, d, false), start, end)
  {
    var constant := seq(|p|, _ => d);
    assert UniformAt(p, constant, d);
    UniformRenders(p, constant, d, false);
    if choice :| UniformAt(p, choice, d) && v == Decorate(RenderChoice(p, choice, false), start, end) {
      UniformRenders(p, choice, d, false);
    }
  }

  /** The emitted values are exactly the equal-depth diagonal of the positional
      expansion: one uniform choice per depth and alternative. */
  lemma EmittedDiagonal(alnum: char -> bool, text: string, v: string)
    requires Translate(alnum, text).Some?
    ensures var src := ReadSource(text);
            var a := Expand(alnum, TreeOf(alnum, text)).value;
            && Depths(a).Some?
            && (v in Translate(alnum, text).value.values <==>
                exists d, k :: 0 <= d < Depths(a).value && 0 <= k < |a| && OnDiagonal(a[k], d, src.start, src.end, v))
  {
    var src := ReadSource(text);
    TranslateEmits(alnum, text);
    var a := Expand(alnum, TreeOf(alnum, text)).value;
    DepthsAlign(a);
    ValuesOnDiagonal(a, Depths(a).value, src.start, src.end, v);
  }

  lemma ValuesOnDiagonal(a: seq<Parts>, depths: nat, start: bool, end: bool, v: string)
    requires Aligned(a, depths)
    ensures v in Values(a, depths, start, end) <==>
            exists d, k :: 0 <= d < depths && 0 <= k < |a| && OnDiagonal(a[k], d, start, end, v)
  {
    ValuesOrigin(a, depths, start, end, v);
    forall d, k | 0 <= d < depths && 0 <= k < |a|
      ensures LaddersHave(a[k], d)
      ensures OnDiagonal(a[k], d, start, end, v) <==> v == Decorate(Render(a[k], d, false), start, end)
    {
      assert LaddersHave(a[k], d);
      DiagonalRenders(a[k], d, start, end, v);
    }
  }

  /** A ladder's rungs are the iterated encodings of its first rung, which is
      not empty; and every group of two or more such literal branches is one. */
  lemma {:induction false} LadderIsIterates(a: seq<Parts>)
    requires |a| >= 2 && AllLiteral(a)
    ensures IsLadder(a) <==> forall k :: 0 <= k < |a| ==> Branches(a)[k] == QuoteAllTimes(Branches(a)[0], k)
  {
    var b := Branches(a);
    if IsLadder(a) {
      forall k | 0 <= k < |a| ensures b[k] == QuoteAllTimes(b[0], k) {
        ClimbsToIterate(b, k);
      }
    }
    if forall k :: 0 <= k < |a| ==> b[k] == QuoteAllTimes(b[0], k) {
      forall k | 1 <= k < |b| ensures b[k] == QuoteAll(b[k - 1]) {
        assert QuoteAllTimes(b[0], k) == QuoteAll(QuoteAllTimes(b[0], k - 1));
      }
    }
  }

  lemma {:induction false} ClimbsToIterate(rungs: seq<string>, k: nat)
    requires Climbs(rungs) && k < |rungs|
    ensures rungs[k] == QuoteAllTimes(rungs[0], k)
  {
    if k > 0 { ClimbsToIterate(rungs, k - 1); }
  }
}
