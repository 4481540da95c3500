/** Texts that show where the fidelity theorems stop: for each side condition,
    a text the translator accepts on which the emitted values and the source
    regex disagree. */
module TranslationLimits {
  import opened Options
  import opened RegexSyntax
  import opened RegexReading
  import opened RegexSemantics
  import opened PercentEncoding
  import opened Expansion
  import opened RegexTranslator
  import opened Wildcards
  import opened TranslationTheorems
  import EdgeAnchors

  /** The ASCII part of the letter-or-digit test, and case-sensitive matching. */
  predicate AsciiAlnum(c: char) { IsAsciiLetter(c) || '0' <= c <= '9' }

  function Same(c: char): char { c }

  lemma {:induction false} Utf8AtMost(s: string)
    ensures |Utf8(s)| <= 4 * |s|
  {
    if s != "" { Utf8AtMost(s[1..]); }
  }

  /** The text of a body with its edge anchors, without inline flags. */
  function Text(start: bool, r: Rx, end: bool): string {
    PrintEdges(Source("", start, Print(r), end))
  }

  /** Such a text is split where it was put together. */
  lemma TextIsRead(start: bool, b: string, end: bool)
    requires start || b == "" || (b[0] != '^' && (b[0] == '(' && |b| > 1 ==> b[1] != '?'))
    requires if end then b == "" || b[|b| - 1] != '\\' else !EndsInAnchor(b)
    ensures ReadSource(PrintEdges(Source("", start, b, end))) == Source("", start, b, end)
  {
    var text := PrintEdges(Source("", start, b, end));
    NoFlags(start, b, end);
    hide FlagsLength;
    assert FlagLetters(text) == "" && text[0..] == text;
    hide *;
    EdgesAreRead(start, b, end);
  }

  lemma NoFlags(start: bool, b: string, end: bool)
    requires start || b == "" || (b[0] != '^' && (b[0] == '(' && |b| > 1 ==> b[1] != '?'))
    ensures FlagsLength(PrintEdges(Source("", start, b, end))) == 0
  {
    hide LetterRun;
    var text := PrintEdges(Source("", start, b, end));
    if !start && |b| > 1 { assert text[0] == b[0] && text[1] == b[1]; }
  }

  lemma EdgesAreRead(start: bool, b: string, end: bool)
    requires start || b == "" || b[0] != '^'
    requires if end then b == "" || b[|b| - 1] != '\\' else !EndsInAnchor(b)
    ensures ReadEdges("", PrintEdges(Source("", start, b, end))) == Source("", start, b, end)
  {
    var text := PrintEdges(Source("", start, b, end));
    var tail := if end then b + "$" else b;
    assert text == (if start then "^" + tail else tail);
    EndIsRead(b, end, tail);
    StartIsRead(start, b, tail, text);
    hide EndsInAnchor, PrintEdges;
  }

  lemma EndIsRead(b: string, end: bool, tail: string)
    requires (if end then b == "" || b[|b| - 1] != '\\' else !EndsInAnchor(b)) && tail == if end then b + "$" else b
    ensures EndsInAnchor(tail) <==> end
    ensures end ==> tail[..|tail| - 1] == b
  {
    if end && b != "" { assert tail[|tail| - 2] == b[|b| - 1]; }
  }

  lemma StartIsRead(start: bool, b: string, tail: string, text: string)
    requires (start || b == "" || b[0] != '^') && (tail == b || tail == b + "$") && text == if start then "^" + tail else tail
    ensures At(text, 0, '^') <==> start
    ensures start ==> text[1..] == tail
  {
    if !start && b != "" { assert text[0] == b[0]; }
  }

  /** A translation, given the tree of the body and its expansion. */
  lemma Translates(start: bool, r: Rx, end: bool, a: seq<Parts>, values: seq<string>, wildcard: bool)
    requires var b := Print(r);
             && |b| <= 100
             && (start || b == "" || (b[0] != '^' && (b[0] == '(' && |b| > 1 ==> b[1] != '?')))
             && (if end then b == "" || b[|b| - 1] != '\\' else !EndsInAnchor(b))
    requires WfAlternation(AsciiAlnum, r, 0)
    requires Expand(AsciiAlnum, r) == Some(a) && Emit(a, start, end) == Some((values, wildcard))
    ensures var text := Text(start, r, end);
            && Translate(AsciiAlnum, text) ==
               Some(RegexResult(values, wildcard, false, Lossy(AsciiAlnum, r), Narrowed(AsciiAlnum, r)))
            && TreeOf(AsciiAlnum, text) == r && SourceTree(AsciiAlnum, text) == Anchored(start, r, end)
  {
    var b := Print(r);
    var text := Text(start, r, end);
    var src := Source("", start, b, end);
    assert ReadSource(text) == src by { TextIsRead(start, b, end); }
    assert ParseBody(AsciiAlnum, b) == Some(r) by { ReadingIsExact(AsciiAlnum, b, r); }
    assert |Utf8(text)| <= MAX_REGEX_LENGTH by { Utf8AtMost(text); assert |text| <= 102; }
    TranslateFrom(AsciiAlnum, text, src, r, a, values, wildcard);
  }

  lemma TranslateFrom(alnum: char -> bool, text: string, src: Source, r: Rx, a: seq<Parts>, values: seq<string>, wildcard: bool)
    requires ReadSource(text) == src && src.flags == "" && |Utf8(text)| <= MAX_REGEX_LENGTH
    requires ParseBody(alnum, src.body) == Some(r) && Expand(alnum, r) == Some(a)
    requires Emit(a, src.start, src.end) == Some((values, wildcard))
    ensures Translate(alnum, text) == Some(RegexResult(values, wildcard, false, Lossy(alnum, r), Narrowed(alnum, r)))
    ensures TreeOf(alnum, text) == r
  {}

  /** A body that is a single term. */
  lemma SingleTerm(q: Rx, a: seq<Parts>)
    requires WfTerm(AsciiAlnum, q, 0) && Expand(AsciiAlnum, q) == Some(a) && |a| <= MAX_VALUES
    ensures var r := Seq(q, Eps);
            && WfAlternation(AsciiAlnum, r, 0) && Print(r) == Print(q) && Expand(AsciiAlnum, r) == Some(a)
            && Lossy(AsciiAlnum, r) == Lossy(AsciiAlnum, q) && Narrowed(AsciiAlnum, r) == Narrowed(AsciiAlnum, q)
  {
    CrossEps(a);
    assert Expand(AsciiAlnum, Eps) == Some([[]]);
  }

  lemma SingleTermEnds(fold: char -> char, q: Rx, s: string, i: nat, j: nat)
    requires i <= |s|
    ensures j in Ends(fold, Seq(q, Eps), s, i) <==> j in Ends(fold, q, s, i)
  {
    SeqEnds(fold, q, Eps, s, i, j);
    if j in Ends(fold, q, s, i) { EndsIn(Ends(fold, q, s, i), i, |s|, j); }
  }

  lemma EndsIn(ends: seq<nat>, lo: nat, hi: nat, j: nat)
    requires Within(ends, lo, hi) && j in ends
    ensures lo <= j <= hi
  {}

  /** Fully anchored, the source finds a string exactly when the body ends at
      its end. */
  lemma FoundWhole(fold: char -> char, r: Rx, s: string)
    requires WfAlternation(AsciiAlnum, r, 0) && !r.Or?
    ensures Found(fold, Anchored(true, r, true), s) <==> |s| in Ends(fold, r, s, 0)
  {
    AnchoredFound(fold, AsciiAlnum, true, r, true, s);
    if |s| in Ends(fold, r, s, 0) { assert Window(s, true, true, 0, |s|); }
  }

  /** Ladder-free alternatives are emitted once each. */
  lemma EmitsFlat(a: seq<Parts>, start: bool, end: bool, row: seq<string>)
    requires !AnyLadder(a) && |a| <= MAX_VALUES
    requires forall k :: 0 <= k < |a| ==> LaddersHave(a[k], 0)
    requires row == ValuesAt(a, 0, start, end) && row != [] && Unique(row) == row && "" !in row
    requires !start || !end || AnyWildcard(a) ==> !AnyLiteralWildcard(a)
    ensures Emit(a, start, end) == Some((row, !start || !end || AnyWildcard(a)))
  {
    DepthsAlign(a);
    OneRow(a, start, end, row);
    EmitIs(a, start, end, 1, row);
  }

  lemma OneRow(a: seq<Parts>, start: bool, end: bool, row: seq<string>)
    requires Aligned(a, 1)
    requires forall k :: 0 <= k < |a| ==> LaddersHave(a[k], 0)
    requires row == ValuesAt(a, 0, start, end)
    ensures Values(a, 1, start, end) == row
  {
    hide LaddersHave, Render, Decorate;
    var none: seq<string> := Values(a, 0, start, end);
    assert none == [];
    assert Values(a, 1, start, end) == none + row;
  }

  lemma EmitIs(a: seq<Parts>, start: bool, end: bool, depths: nat, values: seq<string>)
    requires Depths(a) == Some(depths) && Aligned(a, depths) && |a| * depths <= MAX_VALUES
    requires Unique(Values(a, depths, start, end)) == values && values != [] && "" !in values
    requires !start || !end || AnyWildcard(a) ==> !AnyLiteralWildcard(a)
    ensures Emit(a, start, end) == Some((values, !start || !end || AnyWildcard(a)))
  {
    hide Depths, Aligned, Values, Unique, AnyWildcard, AnyLiteralWildcard;
  }

  /** One ladder-free alternative. */
  lemma EmitsOne(p: Parts, start: bool, end: bool, v: string)
    requires !HasLadder(p) && v == Decorate(Render(p, 0, false), start, end) && v != ""
    requires UsesWildcard(p) || !start || !end ==> !HasLiteralWildcard(p)
    ensures Emit([p], start, end) == Some(([v], !start || !end || UsesWildcard(p)))
  {
    var a, row := [p], [v];
    assert a[0] == p;
    assert !AnyLadder(a) && (AnyWildcard(a) <==> UsesWildcard(p)) && (AnyLiteralWildcard(a) <==> HasLiteralWildcard(p));
    assert ValuesAt(a, 0, start, end) == row;
    UniqueOfDistinct(row);
    EmitsFlat(a, start, end, row);
  }

  lemma StarMatchesAll(fold: char -> char, s: string)
    ensures GlobMatch(fold, "*", s)
  {
    assert "*"[1..] == "" && s[|s|..] == "";
    assert GlobMatch(fold, "*"[1..], s[|s|..]);
  }

  /** Translation of a fully anchored single term with one alternative. */
  lemma TermTranslates(q: Rx, p: Parts, v: string)
    requires var b := Print(q); b != "" && |b| <= 100 && b[|b| - 1] != '\\'
    requires WfTerm(AsciiAlnum, q, 0) && Expand(AsciiAlnum, q) == Some([p])
    requires !HasLadder(p) && Render(p, 0, false) == v != "" && (UsesWildcard(p) ==> !HasLiteralWildcard(p))
    ensures var text := Text(true, Seq(q, Eps), true);
            && Translate(AsciiAlnum, text) ==
               Some(RegexResult([v], UsesWildcard(p), false, Lossy(AsciiAlnum, q), Narrowed(AsciiAlnum, q)))
            && SourceTree(AsciiAlnum, text) == Anchored(true, Seq(q, Eps), true)
  {
    assert |[p]| <= MAX_VALUES;
    hide *;
    SingleTerm(q, [p]);
    EdgesAnchored(v);
    EmitsOne(p, true, true, v);
    Translates(true, Seq(q, Eps), true, [p], [v], UsesWildcard(p));
  }

  lemma EdgesAnchored(v: string)
    ensures Decorate(v, true, true) == v
  {}

  /** `.?` becomes an arbitrary run and the translation is still labelled exact:
      `^.?$` is emitted as `*`, which matches every string. */
  lemma OptionalDotOverMatches()
    ensures var text := Text(true, Seq(Quant(Dot, '?', ""), Eps), true);
            && text == "^.?$"
            && Translate(AsciiAlnum, text) == Some(RegexResult(["*"], true, false, false, false))
            && Emitted(Same, AsciiAlnum, text, "ab") && !Found(Same, SourceTree(AsciiAlnum, text), "ab")
  {
    hide *;
    OptionalDotTranslated(Quant(Dot, '?', ""), [PartAny]);
    EmittedBy("^.?$", ["*"], true, "ab");
    StarMatchesAll(Same, "ab");
    StarValue("*", "ab");
    FirstValue(["*"], true, "ab");
    OptionalDotMisses();
  }

  lemma StarValue(v: string, s: string)
    requires GlobMatch(Same, v, s)
    ensures ValueMatches(Same, v, true, s)
  {}

  lemma OptionalDotTranslated(q: Rx, p: Parts)
    requires q == Quant(Dot, '?', "") && p == [PartAny]
    ensures var text := Text(true, Seq(q, Eps), true);
            && text == "^.?$"
            && Translate(AsciiAlnum, text) == Some(RegexResult(["*"], true, false, false, false))
            && SourceTree(AsciiAlnum, text) == Anchored(true, Seq(q, Eps), true)
  {
    OptionalDotTree(q, p);
    TermTranslates(q, p, "*");
  }

  lemma OptionalDotTree(q: Rx, p: Parts)
    requires q == Quant(Dot, '?', "") && p == [PartAny]
    ensures WfTerm(AsciiAlnum, q, 0) && Expand(AsciiAlnum, q) == Some([p]) && Print(q) == ".?" && Text(true, Seq(q, Eps), true) == "^.?$"
    ensures !HasLadder(p) && UsesWildcard(p) && !HasLiteralWildcard(p) && Render(p, 0, false) == "*"
    ensures !Lossy(AsciiAlnum, q) && !Narrowed(AsciiAlnum, q)
  {
    assert Expand(AsciiAlnum, Dot) == Some([[PartOne]]);
    assert p[0].PartAny? && p[1..] == [] && Render(p, 0, false) == "*" + Render([], 0, true) == "*";
    assert Print(Seq(q, Eps)) == ".?" + "";
  }

  lemma OptionalDotMisses()
    ensures !Found(Same, Anchored(true, Seq(Quant(Dot, '?', ""), Eps), true), "ab")
  {
    var q := Quant(Dot, '?', "");
    SingleTerm(q, [[PartAny]]);
    FoundWhole(Same, Seq(q, Eps), "ab");
    SingleTermEnds(Same, q, "ab", 0, 2);
    assert Ends(Same, q, "ab", 0) == Ends(Same, Dot, "ab", 0) + [0] == [1] + [0];
  }

  /** A body of two terms. */
  lemma TwoTerms(q: Rx, t: Rx, a: seq<Parts>, b: seq<Parts>)
    requires WfTerm(AsciiAlnum, q, 0) && WfTerm(AsciiAlnum, t, 0) && !Swallows(q, Print(t))
    requires Expand(AsciiAlnum, q) == Some(a) && Expand(AsciiAlnum, t) == Some(b)
    requires |b| <= MAX_VALUES && |a| * |b| <= MAX_VALUES
    ensures var r := Seq(q, Seq(t, Eps));
            && WfAlternation(AsciiAlnum, r, 0) && Print(r) == Print(q) + Print(t) && Expand(AsciiAlnum, r) == Some(Cross(a, b))
            && Lossy(AsciiAlnum, r) == (Lossy(AsciiAlnum, q) || Lossy(AsciiAlnum, t))
            && Narrowed(AsciiAlnum, r) == (Narrowed(AsciiAlnum, q) || Narrowed(AsciiAlnum, t))
  {
    SingleTerm(t, b);
    assert WfConcat(AsciiAlnum, Seq(t, Eps), 0);
  }

  lemma TwoTermsEnds(fold: char -> char, q: Rx, t: Rx, s: string, i: nat, j: nat)
    requires i <= |s|
    ensures j in Ends(fold, Seq(q, Seq(t, Eps)), s, i) <==>
            exists k :: k in Ends(fold, q, s, i) && i <= k <= |s| && j in Ends(fold, t, s, k)
  {
    SeqEnds(fold, q, Seq(t, Eps), s, i, j);
    forall k | i <= k <= |s| ensures j in Ends(fold, Seq(t, Eps), s, k) <==> j in Ends(fold, t, s, k) {
      SingleTermEnds(fold, t, s, k, j);
    }
  }

  lemma FirstValue(values: seq<string>, wildcard: bool, s: string)
    requires values != [] && ValueMatches(Same, values[0], wildcard, s)
    ensures SomeValueMatches(Same, values, wildcard, s)
  {}

  lemma NoneOfTwo(v: string, w: string, wildcard: bool, s: string)
    requires !ValueMatches(Same, v, wildcard, s) && !ValueMatches(Same, w, wildcard, s)
    ensures !SomeValueMatches(Same, [v, w], wildcard, s) && !SomeValueMatches(Same, [v], wildcard, s)
  {}

  lemma ShorterOrLonger(v: string, s: string)
    requires |v| != |s|
    ensures !ValueMatches(Same, v, false, s)
  {}

  /** From here on: the emitted values of an accepted text decide `Emitted`. */
  lemma EmittedBy(text: string, values: seq<string>, wildcard: bool, s: string)
    requires Translate(AsciiAlnum, text).Some?
    requires Translate(AsciiAlnum, text).value.values == values && Translate(AsciiAlnum, text).value.wildcard == wildcard
    ensures Emitted(Same, AsciiAlnum, text, s) <==> SomeValueMatches(Same, values, wildcard, s)
  {}

  predicate NiceBody(b: string) {
    b != "" && |b| <= 100 && b[|b| - 1] != '\\'
  }

  /** Translation of a fully anchored body with one ladder-free alternative. */
  lemma WholeTranslates(r: Rx, p: Parts, v: string)
    requires NiceBody(Print(r))
    requires WfAlternation(AsciiAlnum, r, 0) && Expand(AsciiAlnum, r) == Some([p])
    requires !HasLadder(p) && Render(p, 0, false) == v != "" && (UsesWildcard(p) ==> !HasLiteralWildcard(p))
    ensures var text := Text(true, r, true);
            && Translate(AsciiAlnum, text) ==
               Some(RegexResult([v], UsesWildcard(p), false, Lossy(AsciiAlnum, r), Narrowed(AsciiAlnum, r)))
            && SourceTree(AsciiAlnum, text) == Anchored(true, r, true)
  {
    assert Decorate(v, true, true) == v;
    EmitsOne(p, true, true, v);
    hide Render, Emit, Expand, Print, WfAlternation, HasLadder, HasLiteralWildcard, Translate, Text;
    Translates(true, r, true, [p], [v], UsesWildcard(p));
  }

  /** Translation of a fully anchored body that is a choice of literals. */
  lemma LiteralsTranslate(r: Rx, texts: seq<string>)
    requires NiceBody(Print(r))
    requires WfAlternation(AsciiAlnum, r, 0) && Expand(AsciiAlnum, r) == Some(AllLits(texts))
    requires 1 <= |texts| <= MAX_VALUES && "" !in texts && forall i, j :: 0 <= i < j < |texts| ==> texts[i] != texts[j]
    ensures var text := Text(true, r, true);
            && Translate(AsciiAlnum, text) ==
               Some(RegexResult(texts, false, false, Lossy(AsciiAlnum, r), Narrowed(AsciiAlnum, r)))
            && SourceTree(AsciiAlnum, text) == Anchored(true, r, true)
  {
    EmitsLiterals(texts);
    Translates(true, r, true, AllLits(texts), texts, false);
  }

  /** Translation of a fully anchored body that is a choice of characters. */
  lemma SinglesTranslate(r: Rx, members: seq<char>)
    requires NiceBody(Print(r))
    requires WfAlternation(AsciiAlnum, r, 0) && Expand(AsciiAlnum, r) == Some(Singles(members))
    requires 1 <= |members| <= MAX_VALUES && forall i, j :: 0 <= i < j < |members| ==> members[i] != members[j]
    ensures var text := Text(true, r, true);
            && Translate(AsciiAlnum, text) ==
               Some(RegexResult(Texts(members), false, false, Lossy(AsciiAlnum, r), Narrowed(AsciiAlnum, r)))
            && SourceTree(AsciiAlnum, text) == Anchored(true, r, true)
  {
    var texts := Texts(members);
    assert Singles(members) == AllLits(texts) by {
      forall k | 0 <= k < |members| ensures Singles(members)[k] == AllLits(texts)[k] {}
    }
    forall i, j | 0 <= i < j < |texts| ensures texts[i] != texts[j] { assert texts[i][0] != texts[j][0]; }
    LiteralsTranslate(r, texts);
  }

  // ------------------------------------------------------------------ possessive

  const POSSESSIVE: Rx := Seq(Quant(Dot, '*', "+"), Seq(Lit('a'), Eps))

  /** The possessive marker is skipped: `^.*+a$` finds nothing, because the run
      keeps the final `a`, but it is emitted as `*a` and labelled exact. */
  lemma PossessiveOverMatches()
    ensures var text := Text(true, POSSESSIVE, true);
            && text == "^.*+a$"
            && Translate(AsciiAlnum, text) == Some(RegexResult(["*a"], true, false, false, false))
            && Emitted(Same, AsciiAlnum, text, "a") && !Found(Same, SourceTree(AsciiAlnum, text), "a")
  {
    hide *;
    PossessiveTree(POSSESSIVE);
    PossessiveTranslated(POSSESSIVE);
    EmittedBy(Text(true, POSSESSIVE, true), ["*a"], true, "a");
    PossessiveMatches();
    StarValue("*a", "a");
    FirstValue(["*a"], true, "a");
    PossessiveMisses(POSSESSIVE);
  }

  lemma PossessiveTree(r: Rx)
    requires r == POSSESSIVE
    ensures WfAlternation(AsciiAlnum, r, 0) && !r.Or? && NiceBody(Print(r)) && Text(true, r, true) == "^.*+a$"
    ensures Expand(AsciiAlnum, r) == Some([[PartAny, PartLit('a')]])
    ensures !Lossy(AsciiAlnum, r) && !Narrowed(AsciiAlnum, r)
  {
    var q, t := r.head, r.tail.head;
    assert Expand(AsciiAlnum, Dot) == Some([[PartOne]]);
    assert Print(q) == ".*+";
    TwoTerms(q, t, [[PartAny]], [[PartLit('a')]]);
    CrossOnes([PartAny], [PartLit('a')]);
    assert [PartAny] + [PartLit('a')] == [PartAny, PartLit('a')];
  }

  lemma CrossOnes(p: Parts, q: Parts)
    ensures Cross([p], [q]) == [p + q]
  {
    assert Cross([p], [q]) == Prepend(p, [q]) + Cross([p][1..], [q]);
    assert [p][1..] == [] && Cross([], [q]) == [];
  }

  lemma PossessiveTranslated(r: Rx)
    requires r == POSSESSIVE
    ensures var text := Text(true, r, true);
            && Translate(AsciiAlnum, text) == Some(RegexResult(["*a"], true, false, false, false))
            && SourceTree(AsciiAlnum, text) == Anchored(true, r, true)
  {
    var p := [PartAny, PartLit('a')];
    PossessiveTree(r);
    PossessiveRender(p);
    WholeTranslates(r, p, "*a");
  }

  lemma PossessiveRender(p: Parts)
    requires p == [PartAny, PartLit('a')]
    ensures Render(p, 0, false) == "*a" && UsesWildcard(p) && !HasLiteralWildcard(p) && !HasLadder(p)
  {
    assert p[0].PartAny? && p[1..] == [PartLit('a')] && p[1..][1..] == [];
    assert Render(p[1..], 0, true) == "a" + Render([], 0, false) == "a";
  }

  lemma PossessiveMatches()
    ensures GlobMatch(Same, "*a", "a")
  {
    assert "*a"[1..] == "a" && "a"[0..] == "a" && "a"[1..] == "";
    assert GlobMatch(Same, "*a"[1..], "a"[0..]);
  }

  lemma PossessiveMisses(r: Rx)
    requires r == POSSESSIVE
    ensures !Found(Same, Anchored(true, r, true), "a")
  {
    hide Ends, Found, Anchored, WfAlternation, Expand, Lossy, Narrowed, NiceBody, Text, Print;
    PossessiveTree(r);
    FoundWhole(Same, r, "a");
    TwoTermsEnds(Same, r.head, r.tail.head, "a", 0, 1);
    PossessiveRun(Same, "a", 0);
    LitAtEnd('a', "a");
  }

  lemma LitAtEnd(c: char, s: string)
    ensures Ends(Same, Lit(c), s, |s|) == []
  {}

  // -------------------------------------------------------------------- anchors

  const EITHER: Rx := Or(Seq(Lit('a'), Eps), Seq(Lit('b'), Eps))

  /** Edge anchors are stripped before alternation: `^a|b$` is emitted as the
      two whole values `a` and `b`, which miss `ax`. */
  lemma AnchorBesideAlternationMisses()
    ensures var text := Text(true, EITHER, true);
            && text == "^a|b$"
            && Translate(AsciiAlnum, text) == Some(RegexResult(["a", "b"], false, false, false, false))
            && Found(Same, SourceTree(AsciiAlnum, text), "ax") && !Emitted(Same, AsciiAlnum, text, "ax")
  {
    EitherAnchored(EITHER);
    hide *;
    EitherTree(EITHER);
    EitherTranslated(EITHER);
    EmittedBy(Text(true, EITHER, true), ["a", "b"], false, "ax");
    ShorterOrLonger("a", "ax");
    ShorterOrLonger("b", "ax");
    NoneOfTwo("a", "b", false, "ax");
    EitherFound('a', AttachEnd(EITHER.right), "ax");
  }

  lemma EitherAnchored(r: Rx)
    requires r == EITHER
    ensures Anchored(true, r, true) == Or(Seq(Start, Seq(Lit('a'), Eps)), AttachEnd(r.right))
  {}

  lemma EitherTree(r: Rx)
    requires r == EITHER
    ensures WfAlternation(AsciiAlnum, r, 0) && NiceBody(Print(r)) && Text(true, r, true) == "^a|b$"
    ensures Expand(AsciiAlnum, r) == Some(Singles(['a', 'b']))
    ensures !Lossy(AsciiAlnum, r) && !Narrowed(AsciiAlnum, r)
  {
    SingleTerm(r.left.head, [[PartLit('a')]]);
    SingleTerm(r.right.head, [[PartLit('b')]]);
    assert Singles(['a', 'b']) == [[PartLit('a')]] + [[PartLit('b')]];
    assert Print(r) == "a|b";
  }

  lemma EitherTranslated(r: Rx)
    requires r == EITHER
    ensures var text := Text(true, r, true);
            && Translate(AsciiAlnum, text) == Some(RegexResult(["a", "b"], false, false, false, false))
            && SourceTree(AsciiAlnum, text) == Anchored(true, r, true)
  {
    var members := ['a', 'b'];
    assert Texts(members) == ["a", "b"];
    EitherTree(r);
    SinglesTranslate(r, members);
  }

  /** A branch that keeps the start anchor finds any string that begins with
      its character, whatever the other branch does. */
  lemma EitherFound(c: char, other: Rx, s: string)
    requires s != "" && s[0] == c
    ensures Found(Same, Or(Seq(Start, Seq(Lit(c), Eps)), other), s)
  {
    var l := Seq(Lit(c), Eps);
    assert 0 in Ends(Same, Start, s, 0) && 1 in Ends(Same, Lit(c), s, 0);
    hide Ends, Found;
    SeqEnds(Same, Start, l, s, 0, 1);
    SingleTermEnds(Same, Lit(c), s, 0, 1);
    EdgeAnchors.EitherFound(Same, Seq(Start, l), other, s, 0, 1);
  }

  function Texts(members: seq<char>): (out: seq<string>)
    ensures |out| == |members|
    ensures forall k :: 0 <= k < |members| ==> out[k] == [members[k]]
  {
    seq(|members|, k requires 0 <= k < |members| => [members[k]])
  }

  lemma {:induction false} UniqueOfDistinct<T(!new)>(values: seq<T>)
    requires forall i, j :: 0 <= i < j < |values| ==> values[i] != values[j]
    ensures Unique(values) == values
  {
    if values != [] {
      UniqueOfDistinct(values[..|values| - 1]);
    }
  }

  lemma {:induction false} LiteralRender(text: string)
    ensures var p := Lits(text); LaddersHave(p, 0) && Render(p, 0, false) == text && !HasLadder(p) && !UsesWildcard(p)
  {
    if text != "" {
      LiteralRender(text[1..]);
      assert Lits(text)[1..] == Lits(text[1..]);
    }
  }

  /** Fully anchored literals are emitted as themselves. */
  lemma EmitsLiterals(texts: seq<string>)
    requires 1 <= |texts| <= MAX_VALUES && "" !in texts && forall i, j :: 0 <= i < j < |texts| ==> texts[i] != texts[j]
    ensures Emit(AllLits(texts), true, true) == Some((texts, false))
  {
    var a := AllLits(texts);
    hide Render, LaddersHave, HasLadder, UsesWildcard, Lits;
    forall k | 0 <= k < |a|
      ensures !HasLadder(a[k]) && !UsesWildcard(a[k]) && LaddersHave(a[k], 0) && Decorate(Render(a[k], 0, false), true, true) == texts[k]
    {
      LiteralRender(texts[k]);
    }
    UniqueOfDistinct(texts);
    EmitsFlat(a, true, true, texts);
  }

  // -------------------------------------------------------------------- classes

  const RANGE_BODY: string := "\\t-\\r"
  const RANGE_TREE: Rx := Seq(Class(RANGE_BODY), Eps)
  const RANGE_MEMBERS: seq<char> := [9 as char, '-', 13 as char]

  /** An escaped endpoint makes no range for the translator: `^[\t-\r]$` is
      emitted as three characters and misses the line feed between them. */
  lemma EscapedRangeMisses()
    ensures var text := Text(true, RANGE_TREE, true);
            && text == "^[\\t-\\r]$"
            && Translate(AsciiAlnum, text) == Some(RegexResult(Texts(RANGE_MEMBERS), false, false, false, false))
            && Found(Same, SourceTree(AsciiAlnum, text), "\n") && !Emitted(Same, AsciiAlnum, text, "\n")
  {
    EscapedRangeTree(RANGE_TREE);
    EscapedRangeTranslated(RANGE_TREE);
    EmittedBy(Text(true, RANGE_TREE, true), Texts(RANGE_MEMBERS), false, "\n");
    EscapedRangeNone();
    EscapedRangeFound();
  }

  lemma EscapedRangeTree(r: Rx)
    requires r == RANGE_TREE
    ensures WfAlternation(AsciiAlnum, r, 0) && NiceBody(Print(r)) && Text(true, r, true) == "^[\\t-\\r]$"
    ensures Expand(AsciiAlnum, r) == Some(Singles(RANGE_MEMBERS))
    ensures !Lossy(AsciiAlnum, r) && !Narrowed(AsciiAlnum, r)
  {
    assert r == Seq(Class("\\t-\\r"), Eps) && RANGE_BODY == "\\t-\\r";
    assert !(']' in "\\t-\\r") && |RANGE_MEMBERS| <= MAX_VALUES;
    EscapedRangeEnumerated();
    hide Members, Enumerate, ClassLossy, Expand, Lossy, Narrowed, Print, WfAlternation, Singles;
    OneClassTree("\\t-\\r", RANGE_MEMBERS);
    assert "[" + "\\t-\\r" + "]" == "[\\t-\\r]";
  }

  lemma OneClassTree(items: string, members: seq<char>)
    requires ']' !in items && !ClassLossy(AsciiAlnum, items) && Enumerate(AsciiAlnum, items) == Some(members)
    ensures var r := Seq(Class(items), Eps);
            && WfAlternation(AsciiAlnum, r, 0) && Print(r) == "[" + items + "]"
            && Expand(AsciiAlnum, r) == Some(Singles(members))
            && !Lossy(AsciiAlnum, r) && !Narrowed(AsciiAlnum, r)
  {
    hide Enumerate, ClassLossy;
    ClassBound(AsciiAlnum, items);
    SingleTerm(Class(items), Singles(members));
  }

  lemma ClassBound(alnum: char -> bool, items: string)
    requires !ClassLossy(alnum, items)
    ensures Enumerate(alnum, items).Some? && |Enumerate(alnum, items).value| <= MAX_CLASS_MEMBERS
  {}

  lemma EscapedRangeTranslated(r: Rx)
    requires r == RANGE_TREE
    ensures var text := Text(true, r, true);
            && Translate(AsciiAlnum, text) == Some(RegexResult(Texts(RANGE_MEMBERS), false, false, false, false))
            && SourceTree(AsciiAlnum, text) == Anchored(true, r, true)
  {
    EscapedRangeTree(r);
    SinglesTranslate(r, RANGE_MEMBERS);
  }

  lemma EscapedRangeNone()
    ensures !SomeValueMatches(Same, Texts(RANGE_MEMBERS), false, "\n")
  {
    forall k | 0 <= k < 3 ensures !ValueMatches(Same, Texts(RANGE_MEMBERS)[k], false, "\n") {
      assert Texts(RANGE_MEMBERS)[k][0] == RANGE_MEMBERS[k] != '\n';
    }
  }

  lemma EscapedRangeEnumerated()
    ensures Enumerate(AsciiAlnum, RANGE_BODY) == Some(RANGE_MEMBERS)
  {
    var body := RANGE_BODY;
    assert Members(AsciiAlnum, body, 5) == Some([]);
    var three := [13 as char];
    assert Members(AsciiAlnum, body, 3) == Some(three + []) && three + [] == three;
    var two := ['-'] + three;
    assert Members(AsciiAlnum, body, 2) == Some(two);
    assert Members(AsciiAlnum, body, 0) == Some([9 as char] + two);
    assert [9 as char] + two == RANGE_MEMBERS;
    UniqueOfDistinct(RANGE_MEMBERS);
  }

  lemma EscapedRangeFound()
    ensures Found(Same, Anchored(true, RANGE_TREE, true), "\n")
  {
    var body := RANGE_BODY;
    var item := Range(9 as char, 13 as char);
    assert ClassUnit(body, 0) == Unit(Range(9 as char, 9 as char), 2);
    assert ClassUnit(body, 3) == Unit(Range(13 as char, 13 as char), 5);
    assert ClassItems(body, 0) == [item] + ClassItems(body, 5);
    var m: char := '\n';
    assert item.lo <= m <= item.hi && Same(m) == Same('\n');
    assert ClassItems(body, 0)[0] == item;
    assert ClassHas(Same, body, '\n');
    WholeClass(body, '\n');
  }

  /** A fully anchored class finds each of its characters. */
  lemma WholeClass(body: string, x: char)
    requires ClassHas(Same, body, x)
    ensures Found(Same, Anchored(true, Seq(Class(body), Eps), true), [x])
  {
    var meant, s := Seq(Class(body), Eps), [x];
    assert Ends(Same, Class(body), s, 0) == [1];
    SingleTermEnds(Same, Class(body), s, 0, 1);
    AttachEndEnds(Same, meant, s, 0, 1);
    SeqEnds(Same, Start, AttachEnd(meant), s, 0, 1);
    assert Ends(Same, Start, s, 0) == [0];
    assert Ends(Same, Anchored(true, meant, true), s, 0) != [];
  }

  const BRACKET_READ: Rx := Seq(Class("Z-\\"), Seq(Lit(']'), Eps))
  const BRACKET_MEANT: Rx := Seq(Class("Z-\\]"), Eps)
  const BRACKET_VALUES: seq<string> := ["Z]", "[]", "\\]"]

  /** A class is taken to end at its first bracket, escaped or not: the text
      `^[Z-\]]$` is one class, from Z to the bracket, but it is emitted as three
      values of two characters and misses `Z`. */
  lemma EscapedBracketMisses()
    ensures var text := Text(true, BRACKET_READ, true);
            && text == Text(true, BRACKET_MEANT, true) == "^[Z-\\]]$"
            && Translate(AsciiAlnum, text) == Some(RegexResult(BRACKET_VALUES, false, false, false, false))
            && Found(Same, Anchored(true, BRACKET_MEANT, true), "Z")
            && !Emitted(Same, AsciiAlnum, text, "Z")
  {
    hide *;
    BracketTree(BRACKET_READ);
    LiteralsTranslate(BRACKET_READ, BRACKET_VALUES) by { BracketDistinct(); }
    BracketTexts(BRACKET_MEANT);
    EmittedBy(Text(true, BRACKET_READ, true), BRACKET_VALUES, false, "Z");
    BracketMisses();
    BracketMeant();
  }

  lemma BracketDistinct()
    ensures |BRACKET_VALUES| == 3 <= MAX_VALUES && "" !in BRACKET_VALUES
    ensures forall i, j :: 0 <= i < j < |BRACKET_VALUES| ==> BRACKET_VALUES[i] != BRACKET_VALUES[j]
  {
    assert BRACKET_VALUES[0][0] == 'Z' && BRACKET_VALUES[1][0] == '[' && BRACKET_VALUES[2][0] == '\\';
  }

  lemma BracketTexts(r: Rx)
    requires r == BRACKET_MEANT
    ensures Text(true, r, true) == "^[Z-\\]]$"
  {
    assert Print(r) == Print(r.head) + "" == "[Z-\\]]";
  }

  lemma BracketMisses()
    ensures !SomeValueMatches(Same, BRACKET_VALUES, false, "Z")
  {
    forall k | 0 <= k < 3 ensures !ValueMatches(Same, BRACKET_VALUES[k], false, "Z") { ShorterOrLonger(BRACKET_VALUES[k], "Z"); }
  }

  lemma BracketTree(r: Rx)
    requires r == BRACKET_READ
    ensures WfAlternation(AsciiAlnum, r, 0) && NiceBody(Print(r)) && Text(true, r, true) == "^[Z-\\]]$"
    ensures Expand(AsciiAlnum, r) == Some(AllLits(BRACKET_VALUES))
    ensures !Lossy(AsciiAlnum, r) && !Narrowed(AsciiAlnum, r)
  {
    var items, listed := "Z-\\", ['Z', '[', '\\'];
    var q, t := Class(items), Lit(']');
    assert r == Seq(q, Seq(t, Eps)) && ']' !in items;
    BracketListed(items, listed);
    assert Print(q) + Print(t) == "[Z-\\]" + "]" == "[Z-\\]]";
    assert WfTerm(AsciiAlnum, q, 0) && WfTerm(AsciiAlnum, t, 0) && !Swallows(q, Print(t));
    assert Expand(AsciiAlnum, q) == Some(Singles(listed)) && Expand(AsciiAlnum, t) == Some([[PartLit(']')]]);
    assert !Lossy(AsciiAlnum, q) && !Lossy(AsciiAlnum, t) && !Narrowed(AsciiAlnum, q) && !Narrowed(AsciiAlnum, t);
    BracketCross(listed);
    hide Members, Enumerate, Print, Expand, WfAlternation, WfTerm, Lossy, Narrowed, ClassParts, ClassLossy, Cross, Swallows;
    TwoTerms(q, t, Singles(listed), [[PartLit(']')]]);
  }

  lemma BracketListed(items: string, listed: seq<char>)
    requires items == "Z-\\" && listed == ['Z', '[', '\\']
    ensures Enumerate(AsciiAlnum, items) == Some(listed) && !ClassLossy(AsciiAlnum, items)
  {
    var y, z := '[', '\\';
    assert CharRange('Z', 'Z') == ['Z'] && CharRange('Z', y) == CharRange('Z', 'Z') + [y] && CharRange('Z', z) == CharRange('Z', y) + [z];
    assert CharRange('Z', z) == listed;
    assert Members(AsciiAlnum, items, 3) == Some([]);
    assert Members(AsciiAlnum, items, 0) == Some(listed + []) && listed + [] == listed;
    UniqueOfDistinct(listed);
  }

  lemma BracketCross(listed: seq<char>)
    requires listed == ['Z', '[', '\\']
    ensures Cross(Singles(listed), [[PartLit(']')]]) == AllLits(BRACKET_VALUES)
  {
    var b := [[PartLit(']')]];
    var a0, a1, a2 := [PartLit('Z')], [PartLit('[')], [PartLit('\\')];
    assert Singles(listed) == [a0, a1, a2];
    assert Prepend(a0, b) == [a0 + b[0]] && Prepend(a1, b) == [a1 + b[0]] && Prepend(a2, b) == [a2 + b[0]];
    assert [a0, a1, a2][1..] == [a1, a2] && [a1, a2][1..] == [a2] && [a2][1..] == [];
    assert Cross([a2], b) == Prepend(a2, b) + [];
    assert Cross([a1, a2], b) == Prepend(a1, b) + Cross([a2], b);
    assert Cross([a0, a1, a2], b) == Prepend(a0, b) + Cross([a1, a2], b);
    assert AllLits(BRACKET_VALUES)[0] == a0 + b[0] && AllLits(BRACKET_VALUES)[1] == a1 + b[0] && AllLits(BRACKET_VALUES)[2] == a2 + b[0];
  }

  lemma BracketMeant()
    ensures Found(Same, Anchored(true, BRACKET_MEANT, true), "Z")
  {
    var body, item := "Z-\\]", Range('Z', ']');
    assert ClassUnit(body, 0) == Unit(Range('Z', 'Z'), 1) && ClassUnit(body, 2) == Unit(Range(']', ']'), 4);
    var m: char := 'Z';
    assert item.lo <= m <= item.hi && Same(m) == Same('Z');
    assert ClassItems(body, 0) == [item] + ClassItems(body, 4);
    assert ClassItems(body, 0)[0] == item;
    WholeClass(body, 'Z');
  }

  // ------------------------------------------------------------------ hexadecimal

  const SIGNED_HEX: Rx := Seq(Hex('+', '5'), Eps)

  /** The base-16 reader takes a sign: `^\x+5$` is emitted as the character 5,
      while in the source `\x` without digits is NUL, and `\x+5` any run of NULs
      before a 5. */
  lemma SignedHexOverMatches()
    ensures var text, v := Text(true, SIGNED_HEX, true), [5 as char];
            && text == "^\\x+5$"
            && Translate(AsciiAlnum, text) == Some(RegexResult([v], false, false, false, false))
            && Emitted(Same, AsciiAlnum, text, v) && !Found(Same, SourceTree(AsciiAlnum, text), v)
  {
    var v := [5 as char];
    SignedHexTranslated();
    EmittedBy(Text(true, SIGNED_HEX, true), [v], false, v);
    assert ValueMatches(Same, [v][0], false, v);
    SignedHexMisses();
  }

  lemma SignedHexTranslated()
    ensures var text, v := Text(true, SIGNED_HEX, true), [5 as char];
            && text == "^\\x+5$"
            && Translate(AsciiAlnum, text) == Some(RegexResult([v], false, false, false, false))
            && SourceTree(AsciiAlnum, text) == Anchored(true, SIGNED_HEX, true)
  {
    SignedHexParts(SIGNED_HEX, Hex('+', '5'));
    hide *;
    OneCharTranslates(Hex('+', '5'), 5 as char);
  }

  lemma SignedHexParts(r: Rx, q: Rx)
    requires r == SIGNED_HEX && q == Hex('+', '5')
    ensures r == Seq(q, Eps) && Print(q) == "\\x+5" && Text(true, r, true) == "^\\x+5$"
    ensures WfTerm(AsciiAlnum, q, 0) && Expand(AsciiAlnum, q) == Some([[PartLit(5 as char)]]) && !Lossy(AsciiAlnum, q) && !Narrowed(AsciiAlnum, q)
  {
    assert ReadHex('+', '5') == Some(5 as char);
    assert Print(r) == Print(q) + "" == "\\x+5";
  }

  /** Translation of a fully anchored term that stands for one character. */
  lemma OneCharTranslates(q: Rx, c: char)
    requires var b := Print(q); b != "" && |b| <= 100 && b[|b| - 1] != '\\'
    requires WfTerm(AsciiAlnum, q, 0) && Expand(AsciiAlnum, q) == Some([[PartLit(c)]])
    requires !Lossy(AsciiAlnum, q) && !Narrowed(AsciiAlnum, q)
    ensures var text := Text(true, Seq(q, Eps), true);
            && Translate(AsciiAlnum, text) == Some(RegexResult([[c]], false, false, false, false))
            && SourceTree(AsciiAlnum, text) == Anchored(true, Seq(q, Eps), true)
  {
    var p, v := [PartLit(c)], [c];
    assert p[1..] == [] && Render(p, 0, false) == v + Render([], 0, false) == v;
    assert !HasLadder(p) && !UsesWildcard(p);
    hide *;
    TermTranslates(q, p, v);
  }

  lemma SignedHexMisses()
    ensures !Found(Same, Anchored(true, SIGNED_HEX, true), [5 as char])
  {
    var q, v := Hex('+', '5'), [5 as char];
    assert ReadHex('+', '5').Some?;
    SingleTerm(q, [[PartLit(5 as char)]]);
    FoundWhole(Same, SIGNED_HEX, v);
    SingleTermEnds(Same, q, v, 0, 1);
  }

  // --------------------------------------------------------- vertical white space

  const VERTICAL: Rx := Seq(Escape('v'), Eps)

  /** `\v` is a set in the source: `^\v$` finds a line feed, and is emitted as one
      vertical tab. */
  lemma VerticalSpaceMisses()
    ensures var text, v := Text(true, VERTICAL, true), [11 as char];
            && text == "^\\v$"
            && Translate(AsciiAlnum, text) == Some(RegexResult([v], false, false, false, false))
            && Found(Same, SourceTree(AsciiAlnum, text), "\n") && !Emitted(Same, AsciiAlnum, text, "\n")
  {
    VerticalTranslated();
    var v := [11 as char];
    hide Translate, SourceTree, Found, Text;
    EmittedBy(Text(true, VERTICAL, true), [v], false, "\n");
    assert v[0] != "\n"[0];
    VerticalFound();
  }

  lemma VerticalTranslated()
    ensures var text, v := Text(true, VERTICAL, true), [11 as char];
            && text == "^\\v$"
            && Translate(AsciiAlnum, text) == Some(RegexResult([v], false, false, false, false))
            && SourceTree(AsciiAlnum, text) == Anchored(true, VERTICAL, true)
  {
    var q := Escape('v');
    assert Print(q) == "\\v" && Print(VERTICAL) == Print(q) + "";
    OneCharTranslates(q, 11 as char);
  }

  lemma VerticalFound()
    ensures Found(Same, Anchored(true, VERTICAL, true), "\n")
  {
    var q := Escape('v');
    SingleTerm(q, [[PartLit(11 as char)]]);
    FoundWhole(Same, VERTICAL, "\n");
    assert Ends(Same, q, "\n", 0) == [1];
    SingleTermEnds(Same, q, "\n", 0, 1);
  }

  // -------------------------------------------------------------------- ladders

  /** `(\c|%XY)`: a character and its encoding. */
  function Rungs(c: char, x: char, y: char): Rx {
    Group("(", Or(Seq(Escape(c), Eps), Chain(['%', x, y])))
  }

  function Ladder(c: char, x: char, y: char): Part {
    PartLadder([[c], ['%', x, y]])
  }

  /** A reserved ASCII mark other than the encoding characters. */
  predicate IsMark(c: char, x: char, y: char) {
    && (c as int) < 128 && !AsciiAlnum(c) && !IsUnreserved(c as int)
    && AsciiAlnum(x) && AsciiAlnum(y) && Quote([c as int]) == [PERCENT, x as int, y as int]
  }

  lemma MarkQuoted(c: char, x: char, y: char)
    requires IsMark(c, x, y)
    ensures QuoteAll([c]) == ['%', x, y]
  {
    assert Utf8([c]) == Utf8Char(c) + Utf8([c][1..]) == [c as int];
  }

  /** A chain of literal characters. */
  function Chain(text: string): Rx {
    if text == "" then Eps else Seq(Lit(text[0]), Chain(text[1..]))
  }

  function Lits(text: string): (p: Parts)
    ensures |p| == |text| && IsLiteral(p) && LiteralText(p) == text
  {
    seq(|text|, k requires 0 <= k < |text| => PartLit(text[k]))
  }

  function AllLits(texts: seq<string>): (a: seq<Parts>)
    ensures |a| == |texts| && forall k :: 0 <= k < |a| ==> a[k] == Lits(texts[k])
  {
    seq(|texts|, k requires 0 <= k < |texts| => Lits(texts[k]))
  }

  predicate PlainText(text: string) {
    forall k :: 0 <= k < |text| ==> text[k] == '%' || AsciiAlnum(text[k])
  }

  lemma LitFirst(c: char, t: Rx)
    requires (c == '%' || AsciiAlnum(c)) && WfConcat(AsciiAlnum, t, 1) && !Swallows(Lit(c), Print(t))
    ensures WfConcat(AsciiAlnum, Seq(Lit(c), t), 1) && Print(Seq(Lit(c), t)) == [c] + Print(t)
  {
    assert WfTerm(AsciiAlnum, Lit(c), 1) by { assert c !in "([\\.^${}|)"; }
  }

  lemma {:induction false} ChainReads(text: string)
    requires PlainText(text)
    ensures WfConcat(AsciiAlnum, Chain(text), 1) && Print(Chain(text)) == text
  {
    if text != "" {
      var c, rest := text[0], text[1..];
      assert c == '%' || AsciiAlnum(c);
      PlainRest(text);
      ChainReads(rest);
      hide *;
      LitFirst(c, Chain(rest));
      ChainOf(text);
      assert [c] + rest == text;
    }
  }

  lemma ChainOf(text: string)
    requires text != ""
    ensures Chain(text) == Seq(Lit(text[0]), Chain(text[1..]))
  {}

  /** The rest is plain, and its first character is no quantifier. */
  lemma PlainRest(text: string)
    requires PlainText(text) && text != ""
    ensures PlainText(text[1..]) && !Swallows(Lit(text[0]), text[1..])
  {
    var rest := text[1..];
    forall k | 0 <= k < |rest| ensures rest[k] == '%' || AsciiAlnum(rest[k]) { assert rest[k] == text[k + 1]; }
    if rest != "" { assert !IsQuantifier(rest[0]); }
  }

  lemma {:induction false} ChainPlain(text: string)
    ensures !Lossy(AsciiAlnum, Chain(text)) && !Narrowed(AsciiAlnum, Chain(text))
  {
    if text != "" { ChainPlain(text[1..]); }
  }

  lemma {:induction false} ChainExpands(text: string)
    ensures Expand(AsciiAlnum, Chain(text)) == Some([Lits(text)])
  {
    if text == "" {
      assert Lits(text) == [];
    } else {
      var c, rest := text[0], text[1..];
      ChainExpands(rest);
      CrossOnes([PartLit(c)], Lits(rest));
      assert [PartLit(c)] + Lits(rest) == Lits(text);
    }
  }

  lemma MarkBranch(c: char)
    requires (c as int) < 128 && !AsciiAlnum(c)
    ensures var l := Seq(Escape(c), Eps);
            && WfConcat(AsciiAlnum, l, 1) && Print(l) == ['\\', c] && Expand(AsciiAlnum, l) == Some([[PartLit(c)]])
            && !Lossy(AsciiAlnum, l) && !Narrowed(AsciiAlnum, l)
  {
    CrossEps([[PartLit(c)]]);
    assert Print(Escape(c)) == ['\\', c] && Print(Eps) == "";
    assert Expand(AsciiAlnum, Escape(c)) == Some([[PartLit(c)]]) && Expand(AsciiAlnum, Eps) == Some([[]]);
  }

  /** Such a group is recognized as a ladder of depth two. */
  lemma RungsExpand(c: char, x: char, y: char)
    requires IsMark(c, x, y)
    ensures var g := Rungs(c, x, y);
            && WfTerm(AsciiAlnum, g, 0) && Print(g) == ['(', '\\', c, '|', '%', x, y, ')']
            && Expand(AsciiAlnum, g) == Some([[Ladder(c, x, y)]])
            && !Lossy(AsciiAlnum, g) && Narrowed(AsciiAlnum, g)
  {
    var code := ['%', x, y];
    var l, r := Seq(Escape(c), Eps), Chain(code);
    MarkBranch(c);
    ChainReads(code);
    ChainPlain(code);
    ChainExpands(code);
    MarkQuoted(c, x, y);
    var a := [[PartLit(c)]] + [Lits(code)];
    LadderOfTwo(a, c, code);
    assert Print(Or(l, r)) == ['\\', c] + "|" + code;
    GroupOfBranches(l, r, a);
  }

  lemma LadderOfTwo(a: seq<Parts>, c: char, code: string)
    requires code != "" && a == [[PartLit(c)]] + [Lits(code)] && code == QuoteAll([c])
    ensures IsLadder(a) && Branches(a) == [[c], code]
  {
    assert a[0] == [PartLit(c)] && a[1] == Lits(code);
    assert LiteralText(a[0]) == [c];
  }

  lemma GroupOfBranches(l: Rx, r: Rx, a: seq<Parts>)
    requires WfConcat(AsciiAlnum, l, 1) && WfConcat(AsciiAlnum, r, 1) && Print(l) != "" && Print(l)[0] != '?'
    requires Expand(AsciiAlnum, Or(l, r)) == Some(a) && IsLadder(a)
    requires !Lossy(AsciiAlnum, l) && !Lossy(AsciiAlnum, r)
    ensures var g := Group("(", Or(l, r));
            && WfTerm(AsciiAlnum, g, 0) && Print(g) == "(" + (Print(l) + "|" + Print(r)) + ")"
            && Expand(AsciiAlnum, g) == Some([[PartLadder(Branches(a))]])
            && !Lossy(AsciiAlnum, g) && Narrowed(AsciiAlnum, g)
  {
    assert Print(Or(l, r))[0] == Print(l)[0];
    assert WfAlternation(AsciiAlnum, r, 1) && WfAlternation(AsciiAlnum, Or(l, r), 1);
    assert !Lossy(AsciiAlnum, Or(l, r));
  }

  /** One alternative whose ladders all have two rungs gives two values. */
  lemma EmitsTwoDepths(p: Parts, start: bool, end: bool, v: string, w: string)
    requires HasLadder(p) && DepthIs(p, 2) && FirstDepthIn(p) == 2
    requires LaddersHave(p, 0) && LaddersHave(p, 1)
    requires v == Decorate(Render(p, 0, false), start, end) && w == Decorate(Render(p, 1, false), start, end)
    requires v != "" && w != "" && v != w && !UsesWildcard(p) && !HasLiteralWildcard(p)
    ensures Emit([p], start, end) == Some(([v, w], !start || !end))
  {
    hide Values, Emit, Unique, Render, Decorate, LaddersHave, HasLiteralWildcard;
    var a := [p];
    assert a[0] == p;
    assert AnyLadder(a) && AllDepth(a, 2) && FirstDepth(a) == 2 && !AnyWildcard(a) && !AnyLiteralWildcard(a);
    DepthsAlign(a);
    TwoRows(a, p, start, end, v, w);
    UniqueOfDistinct([v, w]);
    EmitIs(a, start, end, 2, [v, w]);
  }

  lemma TwoRows(a: seq<Parts>, p: Parts, start: bool, end: bool, v: string, w: string)
    requires a == [p] && LaddersHave(p, 0) && LaddersHave(p, 1) && Aligned(a, 2)
    requires v == Decorate(Render(p, 0, false), start, end) && w == Decorate(Render(p, 1, false), start, end)
    ensures Values(a, 2, start, end) == [v, w]
  {
    assert ValuesAt(a, 0, start, end) == [v] && ValuesAt(a, 1, start, end) == [w];
    var none := Values(a, 0, start, end);
    assert none == [];
    assert Values(a, 1, start, end) == none + [v] == [v];
    assert Values(a, 2, start, end) == [v] + [w];
  }

  const STAR_LADDER: Rx := Seq(Rungs('*', '2', 'A'), Eps)

  /** The check for literal wildcards does not look at ladder rungs: for
      `(\*|%2A)$` the first value is `**`, which matches every string.  The
      text is labelled as matching less, yet it matches more. */
  lemma StarRungOverMatches()
    ensures var text := Text(false, STAR_LADDER, true);
            && Translate(AsciiAlnum, text) == Some(RegexResult(["**", "*%2A"], true, false, false, true))
            && Emitted(Same, AsciiAlnum, text, "x") && !Found(Same, SourceTree(AsciiAlnum, text), "x")
  {
    StarLadderTranslated(STAR_LADDER);
    EmittedBy(Text(false, STAR_LADDER, true), ["**", "*%2A"], true, "x");
    StarMatchesAll(Same, "x");
    assert "**"[1..] == "*" && "x"[0..] == "x";
    assert GlobMatch(Same, "**"[1..], "x"[0..]);
    assert ValueMatches(Same, ["**", "*%2A"][0], true, "x");
    StarLadderMisses(STAR_LADDER, "x");
  }

  lemma StarMark()
    ensures IsMark('*', '2', 'A') && IsMark('[', '5', 'B')
  {
    assert Quote([42]) == QuoteByte(42) + Quote([42][1..]) == [PERCENT, 50, 65];
    assert Quote([91]) == QuoteByte(91) + Quote([91][1..]) == [PERCENT, 53, 66];
  }

  lemma StarLadderTranslated(r: Rx)
    requires r == STAR_LADDER
    ensures var text := Text(false, r, true);
            && Translate(AsciiAlnum, text) == Some(RegexResult(["**", "*%2A"], true, false, false, true))
            && SourceTree(AsciiAlnum, text) == Anchored(false, r, true)
  {
    var p := [Ladder('*', '2', 'A')];
    StarLadderTree(r, p);
    StarLadderEmits(p);
    Translates(false, r, true, [p], ["**", "*%2A"], true);
  }

  lemma StarLadderTree(r: Rx, p: Parts)
    requires r == STAR_LADDER && p == [Ladder('*', '2', 'A')]
    ensures WfAlternation(AsciiAlnum, r, 0) && !r.Or? && Expand(AsciiAlnum, r) == Some([p])
    ensures NiceBody(Print(r)) && |Print(r)| > 1 && Print(r)[0] == '(' && Print(r)[1] != '?'
    ensures !Lossy(AsciiAlnum, r) && Narrowed(AsciiAlnum, r)
  {
    assert r == Seq(Rungs('*', '2', 'A'), Eps);
    hide *;
    StarMark();
    RungsExpand('*', '2', 'A');
    OneGroupTree(Rungs('*', '2', 'A'), p, '*', '2', 'A');
  }

  lemma OneGroupTree(g: Rx, p: Parts, c: char, x: char, y: char)
    requires WfTerm(AsciiAlnum, g, 0) && Expand(AsciiAlnum, g) == Some([p]) && !Lossy(AsciiAlnum, g) && Narrowed(AsciiAlnum, g)
    requires Print(g) == ['(', '\\', c, '|', '%', x, y, ')']
    ensures var r := Seq(g, Eps);
            && WfAlternation(AsciiAlnum, r, 0) && !r.Or? && Expand(AsciiAlnum, r) == Some([p])
            && NiceBody(Print(r)) && |Print(r)| > 1 && Print(r)[0] == '(' && Print(r)[1] != '?'
            && !Lossy(AsciiAlnum, r) && Narrowed(AsciiAlnum, r)
  {
    hide WfTerm, Print;
    SingleTerm(g, [p]);
  }

  lemma StarLadderEmits(p: Parts)
    requires p == [Ladder('*', '2', 'A')]
    ensures Emit([p], false, true) == Some((["**", "*%2A"], true))
  {
    OneLadderRender('*', '2', 'A');
    assert Decorate("*", false, true) == "**" && Decorate("%2A", false, true) == "*%2A";
    EmitsTwoDepths(p, false, true, "**", "*%2A");
  }

  lemma OneLadderRender(c: char, x: char, y: char)
    ensures var p := [Ladder(c, x, y)];
            && Render(p, 0, false) == [c] && Render(p, 1, false) == ['%', x, y]
            && HasLadder(p) && DepthIs(p, 2) && FirstDepthIn(p) == 2 && !UsesWildcard(p) && !HasLiteralWildcard(p)
  {
    var p := [Ladder(c, x, y)];
    assert p[0].PartLadder? && p[1..] == [];
    assert Render([], 0, false) == "" && Render([], 1, false) == "";
  }

  /** A ladder that ends the string needs one of its rungs there. */
  lemma StarLadderMisses(r: Rx, s: string)
    requires r == STAR_LADDER && s == "x"
    ensures !Found(Same, Anchored(false, r, true), s)
  {
    StarLadderTree(r, [Ladder('*', '2', 'A')]);
    AnchoredFound(Same, AsciiAlnum, false, r, true, s);
    forall i, j | Window(s, false, true, i, j) ensures j !in Ends(Same, r, s, i)
    {
      SingleTermEnds(Same, r.head, s, i, j);
      NoRung('*', '2', 'A', s, i);
    }
  }

  lemma NoRung(c: char, x: char, y: char, s: string, i: nat)
    requires i <= |s| && !AsciiAlnum(c) && (i < |s| ==> s[i] != c && s[i] != '%')
    ensures Ends(Same, Rungs(c, x, y), s, i) == []
  {
    var code := ['%', x, y];
    assert Ends(Same, Escape(c), s, i) == [];
    assert Ends(Same, Lit('%'), s, i) == [];
    assert Ends(Same, Seq(Escape(c), Eps), s, i) == [];
    assert Chain(code) == Seq(Lit('%'), Chain(code[1..]));
    assert Ends(Same, Chain(code), s, i) == [];
  }

  const BRACKET_RUNG: Rx := Rungs('[', '5', 'B')
  const BRACKET_LADDERS: Rx := Seq(BRACKET_RUNG, Seq(BRACKET_RUNG, Eps))

  /** Alignment misses mixed depths: `^(\[|%5B)(\[|%5B)$` is emitted as `[[`
      and `%5B%5B`, while the source also finds `[%5B`. */
  lemma MixedDepthsMissed()
    ensures var text := Text(true, BRACKET_LADDERS, true);
            && Translate(AsciiAlnum, text) == Some(RegexResult(["[[", "%5B%5B"], false, false, false, true))
            && Found(Same, SourceTree(AsciiAlnum, text), "[%5B") && !Emitted(Same, AsciiAlnum, text, "[%5B")
  {
    hide *;
    LaddersTranslated(BRACKET_LADDERS);
    EmittedBy(Text(true, BRACKET_LADDERS, true), ["[[", "%5B%5B"], false, "[%5B");
    ShorterOrLonger("[[", "[%5B");
    ShorterOrLonger("%5B%5B", "[%5B");
    NoneOfTwo("[[", "%5B%5B", false, "[%5B");
    LaddersFound(BRACKET_LADDERS);
  }

  lemma LaddersTree(r: Rx, p: Parts)
    requires r == BRACKET_LADDERS && p == [Ladder('[', '5', 'B'), Ladder('[', '5', 'B')]
    ensures WfAlternation(AsciiAlnum, r, 0) && NiceBody(Print(r)) && Expand(AsciiAlnum, r) == Some([p])
    ensures !Lossy(AsciiAlnum, r) && Narrowed(AsciiAlnum, r)
  {
    assert r == Seq(Rungs('[', '5', 'B'), Seq(Rungs('[', '5', 'B'), Eps));
    var one := [Ladder('[', '5', 'B')];
    assert one + one == p;
    hide *;
    StarMark();
    RungsExpand('[', '5', 'B');
    TwoGroupsTree(Rungs('[', '5', 'B'), one, '[', '5', 'B');
  }

  lemma TwoGroupsTree(g: Rx, p: Parts, c: char, x: char, y: char)
    requires WfTerm(AsciiAlnum, g, 0) && Expand(AsciiAlnum, g) == Some([p]) && !Lossy(AsciiAlnum, g) && Narrowed(AsciiAlnum, g)
    requires Print(g) == ['(', '\\', c, '|', '%', x, y, ')']
    ensures var r := Seq(g, Seq(g, Eps));
            && WfAlternation(AsciiAlnum, r, 0) && NiceBody(Print(r)) && Expand(AsciiAlnum, r) == Some([p + p])
            && !Lossy(AsciiAlnum, r) && Narrowed(AsciiAlnum, r)
  {
    hide WfTerm, Print, Expand, Lossy, Narrowed, WfAlternation;
    TwoTerms(g, g, [p], [p]);
    CrossOnes(p, p);
  }

  lemma LaddersRender(p: Parts)
    requires p == [Ladder('[', '5', 'B'), Ladder('[', '5', 'B')]
    ensures Render(p, 0, false) == "[[" && Render(p, 1, false) == "%5B%5B"
    ensures HasLadder(p) && DepthIs(p, 2) && FirstDepthIn(p) == 2 && !UsesWildcard(p) && !HasLiteralWildcard(p)
  {
    OneLadderRender('[', '5', 'B');
    assert p[0].PartLadder? && p[1..] == [Ladder('[', '5', 'B')];
    assert Render(p, 0, false) == "[" + "[" && Render(p, 1, false) == "%5B" + "%5B";
  }

  lemma LaddersTranslated(r: Rx)
    requires r == BRACKET_LADDERS
    ensures var text := Text(true, r, true);
            && Translate(AsciiAlnum, text) == Some(RegexResult(["[[", "%5B%5B"], false, false, false, true))
            && SourceTree(AsciiAlnum, text) == Anchored(true, r, true)
  {
    var p := [Ladder('[', '5', 'B'), Ladder('[', '5', 'B')];
    LaddersTree(r, p);
    LaddersRender(p);
    hide Expand, Lossy, Narrowed, Print, WfAlternation, Render;
    EmitsTwoDepths(p, true, true, "[[", "%5B%5B");
    Translates(true, r, true, [p], ["[[", "%5B%5B"], false);
  }

  /** The source matcher takes each group at its own depth. */
  lemma LaddersFound(r: Rx)
    requires r == BRACKET_LADDERS
    ensures Found(Same, Anchored(true, r, true), "[%5B")
  {
    hide Ends, Found, Anchored, WfAlternation, Expand, Lossy, Narrowed, NiceBody, Print, Rungs;
    var s := "[%5B";
    LaddersTree(r, [Ladder('[', '5', 'B'), Ladder('[', '5', 'B')]);
    MarkEnds('[', '5', 'B', s, 0);
    EncodedEnds(s);
    TwoTermsEnds(Same, r.head, r.head, s, 0, 4);
    FoundWhole(Same, r, s);
  }

  lemma MarkEnds(c: char, x: char, y: char, s: string, i: nat)
    requires i < |s| && s[i] == c && !AsciiAlnum(c)
    ensures i + 1 in Ends(Same, Rungs(c, x, y), s, i)
  {
    SingleTermEnds(Same, Escape(c), s, i, i + 1);
    assert Ends(Same, Escape(c), s, i) == [i + 1];
  }

  lemma LitEnds(c: char, s: string, i: nat)
    requires i < |s| && s[i] == c
    ensures i + 1 in Ends(Same, Lit(c), s, i)
  {}

  lemma LitThen(c: char, t: Rx, s: string, i: nat, j: nat)
    requires i < |s| && s[i] == c && j in Ends(Same, t, s, i + 1)
    ensures j in Ends(Same, Seq(Lit(c), t), s, i)
  {
    LitEnds(c, s, i);
    SeqEnds(Same, Lit(c), t, s, i, j);
  }

  lemma {:induction false} ChainEnds(text: string, s: string, i: nat)
    requires i + |text| <= |s| && s[i..i + |text|] == text
    ensures i + |text| in Ends(Same, Chain(text), s, i)
  {
    if text != "" {
      assert s[i] == text[0] && s[i + 1..i + |text|] == text[1..];
      ChainEnds(text[1..], s, i + 1);
      LitThen(text[0], Chain(text[1..]), s, i, i + |text|);
    }
  }

  lemma EncodedEnds(s: string)
    requires s == "[%5B"
    ensures 4 in Ends(Same, BRACKET_RUNG, s, 1)
  {
    var code := ['%', '5', 'B'];
    ChainEnds(code, s, 1);
  }
}
