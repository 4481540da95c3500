/** Ladders whose rungs hold a `*` or `?`: exactly when does a value that stands
    for one alternative match more than the source finds? */
module WildcardRungs {
  import opened Options
  import opened RegexSyntax
  import opened RegexSemantics
  import opened PercentEncoding
  import opened Expansion
  import opened RegexTranslation
  import opened Wildcards
  import opened TranslationMeaning
  import opened Fidelity
  import opened TranslationTheorems
  import opened Operators

  // -------------------------------------------------------------- the lengths of rungs

  lemma {:induction false} ReservedMark(s: string, k: nat)
    requires k < |s| && (s[k] == '*' || s[k] == '?')
    ensures ReservedCount(Utf8(s)) >= 1
  {
    ReservedCountAppend(Utf8Char(s[0]), Utf8(s[1..]));
    if k == 0 {
      assert Utf8Char(s[0]) == [s[0] as int];
      assert [s[0] as int][1..] == [];
    } else {
      ReservedMark(s[1..], k - 1);
    }
  }

  lemma EncodingGrows(s: string)
    ensures |QuoteAll(s)| >= |s| && NoWildcardIn(QuoteAll(s))
    ensures !NoWildcardIn(s) ==> |QuoteAll(s)| > |s|
  {
    Utf8NonEmpty(s);
    QuoteGrowth(Utf8(s));
    QuoteIsAscii(Utf8(s));
    QuoteBytesKnown(Utf8(s));
    if !NoWildcardIn(s) {
      var k :| 0 <= k < |s| && (s[k] == '*' || s[k] == '?');
      ReservedMark(s, k);
    }
    forall k | 0 <= k < |QuoteAll(s)| ensures QuoteAll(s)[k] != '*' && QuoteAll(s)[k] != '?' {
      assert QuoteAll(s)[k] as int == Quote(Utf8(s))[k];
    }
  }

  /** The first rung is the shortest, and alone so if it holds a wildcard character;
      no other rung holds one. */
  lemma {:induction false} RungsGrow(rungs: seq<string>, d: nat)
    requires Climbs(rungs) && d < |rungs|
    ensures |rungs[d]| >= |rungs[0]|
    ensures d > 0 ==> NoWildcardIn(rungs[d]) && (!NoWildcardIn(rungs[0]) ==> |rungs[d]| > |rungs[0]|)
  {
    if d > 0 {
      RungsGrow(rungs, d - 1);
      EncodingGrows(rungs[d - 1]);
      assert rungs[d] == QuoteAll(rungs[d - 1]);
    }
  }

  // ------------------------------------------------------------------- the shortest match

  /** The shortest string the parts match as rendered at depth 0, every wildcard
      character of a rung overwritten. */
  function Shortest(p: Parts, x: char): string
    requires LaddersHave(p, 0)
  {
    if p == [] then ""
    else
      assert LaddersHave(p[1..], 0);
      (match p[0]
       case PartLit(c) => [c]
       case PartOne => [x]
       case PartAny => ""
       case PartLadder(rungs) => Overwritten(rungs[0], x))
      + Shortest(p[1..], x)
  }

  lemma {:induction false} GlobOverwrittenThen(fold: char -> char, v: string, rest: string, x: char, t: string)
    requires GlobMatch(fold, rest, t)
    ensures GlobMatch(fold, v + rest, Overwritten(v, x) + t)
  {
    if v == "" {
      assert v + rest == rest && Overwritten(v, x) + t == t;
    } else {
      GlobOverwrittenThen(fold, v[1..], rest, x, t);
      var w := Overwritten(v, x) + t;
      assert (v + rest)[1..] == v[1..] + rest && w[1..] == Overwritten(v[1..], x) + t;
      if v[0] == '*' { assert GlobMatch(fold, (v + rest)[1..], w[1..]); }
    }
  }

  /** The rendered value matches it. */
  lemma {:induction false} RenderMatchesShortest(fold: char -> char, p: Parts, lastAny: bool, x: char)
    requires LaddersHave(p, 0)
    ensures GlobMatch(fold, Render(p, 0, lastAny), Shortest(p, x))
    decreases |p|
  {
    if p != [] {
      assert LaddersHave(p[1..], 0);
      var rest := Shortest(p[1..], x);
      var t := Shortest(p, x);
      RenderMatchesShortest(fold, p[1..], p[0].PartAny?, x);
      match p[0] {
        case PartLit(c) => assert t[1..] == rest && ([c] + Render(p[1..], 0, false))[1..] == Render(p[1..], 0, false);
        case PartOne => assert t[1..] == rest && ("?" + Render(p[1..], 0, false))[1..] == Render(p[1..], 0, false);
        case PartAny =>
          assert t == rest && t[0..] == rest;
          assert ("*" + Render(p[1..], 0, true))[1..] == Render(p[1..], 0, true);
          assert "" + Render(p[1..], 0, true) == Render(p[1..], 0, true);
        case PartLadder(rungs) => GlobOverwrittenThen(fold, rungs[0], Render(p[1..], 0, false), x, rest);
      }
    }
  }

  predicate GoodTail(p: Parts) { GoodParts(p) && LaddersHave(p, 0) }

  lemma TailIsGood(p: Parts)
    requires GoodTail(p) && p != []
    ensures GoodTail(p[1..]) && (p[0].PartLadder? ==> GoodRungs(p[0].rungs))
  {
    forall k | 0 <= k < |p| - 1 ensures p[1..][k] == p[k + 1] {}
  }

  /** Some first rung holds a wildcard character. */
  predicate BadRung(p: Parts) {
    exists k :: 0 <= k < |p| && p[k].PartLadder? && p[k].rungs != [] && !NoWildcardIn(p[k].rungs[0])
  }

  /** Whatever rungs are chosen, a match is at least that long. */
  lemma {:induction false} NoShorter(fold: char -> char, p: Parts, x: char, t: string)
    requires GoodTail(p) && PartsMatch(fold, p, None, t)
    ensures |t| >= |Shortest(p, x)|
    decreases |p|
  {
    if p != [] {
      TailIsGood(p);
      match p[0] {
        case PartLit(_) => NoShorter(fold, p[1..], x, t[1..]);
        case PartOne => NoShorter(fold, p[1..], x, t[1..]);
        case PartAny =>
          var k :| 0 <= k <= |t| && PartsMatch(fold, p[1..], None, t[k..]);
          NoShorter(fold, p[1..], x, t[k..]);
        case PartLadder(rungs) =>
          var d :| 0 <= d < |rungs| && LadderTakes(fold, rungs[d], t) && PartsMatch(fold, p[1..], None, t[|rungs[d]|..]);
          NoShorter(fold, p[1..], x, t[|rungs[d]|..]);
          RungsGrow(rungs, d);
      }
    }
  }

  /** A string that short forces every ladder to its shortest rung, which is not
      there if it holds a wildcard character. */
  lemma {:induction false} ShortestMissed(fold: char -> char, p: Parts, x: char)
    requires GoodTail(p) && BadRung(p) && fold(x) != fold('*') && fold(x) != fold('?')
    ensures !PartsMatch(fold, p, None, Shortest(p, x))
    decreases |p|
  {
    TailIsGood(p);
    var t, rest := Shortest(p, x), Shortest(p[1..], x);
    BadIsHereOrThere(p);
    match p[0] {
      case PartLit(_) =>
        assert t[1..] == rest;
        ShortestMissed(fold, p[1..], x);
      case PartOne =>
        assert t[1..] == rest;
        ShortestMissed(fold, p[1..], x);
      case PartAny =>
        ShortestMissed(fold, p[1..], x);
        forall k | 0 <= k <= |t| ensures !PartsMatch(fold, p[1..], None, t[k..]) {
          if k == 0 { assert t[k..] == rest; }
          if k > 0 && PartsMatch(fold, p[1..], None, t[k..]) { NoShorter(fold, p[1..], x, t[k..]); }
        }
      case PartLadder(rungs) => LadderMissed(fold, p, x);
    }
  }

  lemma BadIsHereOrThere(p: Parts)
    requires BadRung(p)
    ensures p != [] && (BadRung(p[1..]) || (p[0].PartLadder? && p[0].rungs != [] && !NoWildcardIn(p[0].rungs[0])))
  {
    var k :| 0 <= k < |p| && p[k].PartLadder? && p[k].rungs != [] && !NoWildcardIn(p[k].rungs[0]);
    if k > 0 { assert p[1..][k - 1] == p[k]; }
  }

  lemma {:induction false} LadderMissed(fold: char -> char, p: Parts, x: char)
    requires GoodTail(p) && BadRung(p) && fold(x) != fold('*') && fold(x) != fold('?') && p != [] && p[0].PartLadder?
    ensures !PartsMatch(fold, p, None, Shortest(p, x))
    decreases |p|, 0
  {
    TailIsGood(p);
    BadIsHereOrThere(p);
    var rungs, t, rest := p[0].rungs, Shortest(p, x), Shortest(p[1..], x);
    var first := Overwritten(rungs[0], x);
    assert t == first + rest && t[..|first|] == first && t[|first|..] == rest;
    if BadRung(p[1..]) { ShortestMissed(fold, p[1..], x); }
    forall d | 0 <= d < |rungs| ensures !(LadderTakes(fold, rungs[d], t) && PartsMatch(fold, p[1..], None, t[|rungs[d]|..])) {
      RungsGrow(rungs, d);
      if LadderTakes(fold, rungs[d], t) && PartsMatch(fold, p[1..], None, t[|rungs[d]|..]) {
        NoShorter(fold, p[1..], x, t[|rungs[d]|..]);
        if !NoWildcardIn(rungs[0]) { OverwrittenDiffers(fold, rungs[0], x); }
      }
    }
  }

  lemma OverwrittenDiffers(fold: char -> char, v: string, x: char)
    requires !NoWildcardIn(v) && fold(x) != fold('*') && fold(x) != fold('?')
    ensures !SameFolded(fold, v, Overwritten(v, x))
  {
    var k :| 0 <= k < |v| && (v[k] == '*' || v[k] == '?');
    assert fold(v[k]) != fold(Overwritten(v, x)[k]);
  }

  // -------------------------------------------------------------------- the theorem

  lemma PlainOrBad(a: seq<Parts>)
    requires |a| == 1 && AllGood(a)
    ensures PlainRungs(a) <==> !BadRung(a[0])
  {
    var p := a[0];
    if !BadRung(p) {
      forall m, d | 0 <= m < |p| && p[m].PartLadder? && 0 <= d < |p[m].rungs| ensures NoWildcardIn(p[m].rungs[d]) {
        assert GoodRungs(p[m].rungs);
        RungsGrow(p[m].rungs, d);
      }
    }
  }

  /** The value emitted for the one alternative matches the shortest string. */
  lemma ShortestEmitted(fold: char -> char, a: seq<Parts>, start: bool, end: bool, x: char)
    requires |a| == 1 && Emit(a, start, end).Some? && Emit(a, start, end).value.1 && LaddersHave(a[0], 0)
    ensures SomeValueMatches(fold, Emit(a, start, end).value.0, true, Shortest(a[0], x))
  {
    DepthsAlign(a);
    var depths := Depths(a).value;
    var all := Values(a, depths, start, end);
    var v, t := Render(a[0], 0, false), Shortest(a[0], x);
    assert depths >= 1;
    RenderMatchesShortest(fold, a[0], false, x);
    hide Render, Shortest, GlobMatch, Depths;
    ValuesOrigin(a, depths, start, end, Decorate(v, start, end));
    assert Decorate(v, start, end) in Unique(all);
    assert t[0..|t|] == t && Window(t, start, end, 0, |t|);
    DecoratedGlob(fold, v, start, end, t);
    var n :| 0 <= n < |Unique(all)| && Unique(all)[n] == Decorate(v, start, end);
    assert ValueMatches(fold, Unique(all)[n], true, t);
  }

  /** No window of the shortest string is matched positionally. */
  lemma ShortestNotFound(fold: char -> char, alnum: char -> bool, start: bool, r: Rx, end: bool, x: char)
    requires KnowsAscii(alnum) && PlainlyRead(r) && Expand(alnum, r).Some? && |Expand(alnum, r).value| == 1
    requires GoodTail(Expand(alnum, r).value[0]) && BadRung(Expand(alnum, r).value[0]) && fold(x) != fold('*') && fold(x) != fold('?')
    ensures !BodyFound(fold, start, r, end, Shortest(Expand(alnum, r).value[0], x))
  {
    hide Ends, Expand, PlainlyRead, KnowsAscii, PartsMatch, GoodParts, BadRung, Shortest;
    var a := Expand(alnum, r).value;
    var t := Shortest(a[0], x);
    forall i: nat, j: nat | Window(t, start, end, i, j) ensures j !in Ends(fold, r, t, i) {
      WindowMissed(fold, a[0], x, i, j);
      if j in Ends(fold, r, t, i) { Complete(fold, alnum, r, t, i, j); }
    }
  }

  lemma WindowMissed(fold: char -> char, p: Parts, x: char, i: nat, j: nat)
    requires GoodTail(p) && BadRung(p) && fold(x) != fold('*') && fold(x) != fold('?') && i <= j <= |Shortest(p, x)|
    ensures !PartsMatch(fold, p, None, Shortest(p, x)[i..j])
  {
    var t := Shortest(p, x);
    if i == 0 && j == |t| {
      assert t[i..j] == t;
      ShortestMissed(fold, p, x);
    } else if PartsMatch(fold, p, None, t[i..j]) {
      NoShorter(fold, p, x, t[i..j]);
    }
  }

  /** For every accepted text of one alternative that is plainly read and not
      generalized, ladders included: the emitted values match only strings the
      source finds, if and only if no rung of a wildcard value holds a `*` or `?`. */
  lemma WildcardRungsExactly(fold: char -> char, alnum: char -> bool, text: string, x: char)
    requires KnowsAscii(alnum) && Translate(alnum, text).Some? && !Translate(alnum, text).value.lossy
    requires var r := TreeOf(alnum, text); PlainlyRead(r) && NoPossessive(r) && NoOptionalDot(alnum, r)
    requires AnchorsReadRight(alnum, text) && |Expand(alnum, TreeOf(alnum, text)).value| == 1
    requires fold(x) != fold('*') && fold(x) != fold('?')
    ensures (forall s :: Emitted(fold, alnum, text, s) ==> Found(fold, SourceTree(alnum, text), s))
            <==> (Translate(alnum, text).value.wildcard ==> PlainRungs(Expand(alnum, TreeOf(alnum, text)).value))
  {
    var src, r, res := ReadSource(text), TreeOf(alnum, text), Translate(alnum, text).value;
    TranslateEmits(alnum, text);
    ExpandGood(alnum, r);
    var a := Expand(alnum, r).value;
    PlainOrBad(a);
    if res.wildcard ==> PlainRungs(a) {
      forall s | Emitted(fold, alnum, text, s) ensures Found(fold, SourceTree(alnum, text), s) { NeverAdds(fold, alnum, text, s); }
    } else {
      FirstRungs(a[0]);
      var t := Shortest(a[0], x);
      ShortestEmitted(fold, a, src.start, src.end, x);
      ShortestNotFound(fold, alnum, src.start, r, src.end, x);
      AnchoredFound(fold, alnum, src.start, r, src.end, t);
      assert Emitted(fold, alnum, text, t) && !Found(fold, SourceTree(alnum, text), t);
    }
  }

  lemma FirstRungs(p: Parts)
    requires GoodParts(p)
    ensures GoodTail(p)
  {}
}
