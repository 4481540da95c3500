/** Texts of one branch, made of characters, `.`, `.*`, `.+` and `.?`: exactly
    when is the translation of `.?` as an arbitrary run harmless? */
module OptionalDots {
  import opened Options
  import opened RegexSyntax
  import opened RegexSemantics
  import opened Expansion
  import opened Wildcards
  import opened TranslationMeaning
  import opened Fidelity
  import opened TranslationTheorems
  import opened EmittedMeaning

  datatype Term = Char(c: char) | One | Star(lazy: bool) | Plus(lazy: bool) | Maybe(lazy: bool)

  function Marker(lazy: bool): string { if lazy then "?" else "" }

  function Tree(t: Term): Rx {
    match t
    case Char(c) => Lit(c)
    case One => Dot
    case Star(lazy) => Quant(Dot, '*', Marker(lazy))
    case Plus(lazy) => Quant(Dot, '+', Marker(lazy))
    case Maybe(lazy) => Quant(Dot, '?', Marker(lazy))
  }

  function Branch(terms: seq<Term>): Rx {
    if terms == [] then Eps else Seq(Tree(terms[0]), Branch(terms[1..]))
  }

  /** Between two characters, or at an anchored edge, stands a `.?` with no run
      beside it.  `maybe` and `run` say what the block has held so far; an
      unanchored edge is a run. */
  predicate Tight(terms: seq<Term>, maybe: bool, run: bool, end: bool) {
    if terms == [] then maybe && !run && end
    else
      match terms[0]
      case Char(_) => (maybe && !run) || Tight(terms[1..], false, false, end)
      case One => Tight(terms[1..], maybe, run, end)
      case Star(_) => Tight(terms[1..], maybe, true, end)
      case Plus(_) => Tight(terms[1..], maybe, true, end)
      case Maybe(_) => Tight(terms[1..], true, run, end)
  }

  // ----------------------------------------------------------- what one term takes

  /** How many characters a term other than a character may take. */
  predicate Takes(t: Term, n: int) {
    match t
    case Char(_) => false
    case One => n == 1
    case Star(_) => n >= 0
    case Plus(_) => n >= 1
    case Maybe(_) => n == 0 || n == 1
  }

  /** `.?` read as a run. */
  function Widen(t: Term): Term { if t.Maybe? then Star(t.lazy) else t }

  function WidenAll(terms: seq<Term>): seq<Term> {
    if terms == [] then [] else [Widen(terms[0])] + WidenAll(terms[1..])
  }

  lemma DotEnds(fold: char -> char, s: string, i: nat, j: nat)
    requires i <= |s|
    ensures j in Ends(fold, Dot, s, i) <==> i < |s| && j == i + 1
  {}

  lemma RunEnds(fold: char -> char, s: string, i: nat, j: nat, op: char, m: string)
    requires i <= |s| && (op == '*' || op == '+') && m != "+"
    ensures j in Ends(fold, Quant(Dot, op, m), s, i) <==> i <= j <= |s| && (op == '+' ==> i < j)
  {
    var r := Quant(Dot, op, m);
    forall k | 0 <= k < |s| ensures k + 1 in Ends(fold, Dot, s, k) { DotEnds(fold, s, k, k + 1); }
    if i <= j <= |s| && (op == '+' ==> i < j) { RepeatsAny(fold, r, s, i, j); }
    if j in Ends(fold, r, s, i) {
      EndsRange(Ends(fold, r, s, i), i, |s|, j);
      if op == '+' {
        var k := PlusPasses(fold, r, s, i, j);
        DotEnds(fold, s, i, k);
      }
    }
  }

  lemma MaybeEnds(fold: char -> char, s: string, i: nat, j: nat, m: string)
    requires i <= |s| && m != "+"
    ensures j in Ends(fold, Quant(Dot, '?', m), s, i) <==> j <= |s| && (j == i || j == i + 1)
  {
    DotEnds(fold, s, i, i + 1);
    DotEnds(fold, s, i, j);
    hide SingleEnds;
    var one := Ends(fold, Dot, s, i);
    assert Ends(fold, Quant(Dot, '?', m), s, i) == if m == "?" then [i] + one else one + [i];
  }

  lemma TermEnds(fold: char -> char, t: Term, s: string, i: nat, j: nat)
    requires i <= |s| && !t.Char?
    ensures j in Ends(fold, Tree(t), s, i) <==> j <= |s| && Takes(t, j - i)
  {
    hide Ends;
    match t
    case One => DotEnds(fold, s, i, j);
    case Star(lazy) => RunEnds(fold, s, i, j, '*', Marker(lazy));
    case Plus(lazy) => RunEnds(fold, s, i, j, '+', Marker(lazy));
    case Maybe(lazy) => MaybeEnds(fold, s, i, j, Marker(lazy));
  }

  lemma CharEnds(fold: char -> char, c: char, s: string, i: nat, j: nat)
    requires i <= |s|
    ensures j in Ends(fold, Lit(c), s, i) <==> i < |s| && fold(s[i]) == fold(c) && j == i + 1
  {}

  /** As read, a term takes what its widened form takes. */
  lemma AsReadEnds(fold: char -> char, alnum: char -> bool, t: Term, s: string, i: nat, j: nat)
    requires i <= |s| && !t.Char?
    ensures j in Ends(fold, AsRead(alnum, Tree(t)), s, i) <==> j <= |s| && Takes(Widen(t), j - i)
  {
    hide Ends;
    match t
    case One => DotEnds(fold, s, i, j);
    case Star(_) => RunEnds(fold, s, i, j, '*', "");
    case Maybe(_) => RunEnds(fold, s, i, j, '*', "");
    case Plus(_) =>
      SeqEnds(fold, Dot, ANYTHING, s, i, j);
      DotEnds(fold, s, i, i + 1);
      forall k | k in Ends(fold, Dot, s, i) ensures k == i + 1 && i < |s| { DotEnds(fold, s, i, k); }
      if i < |s| { RunEnds(fold, s, i + 1, j, '*', ""); }
  }

  // ------------------------------------------------------------------------- spans

  ghost predicate InSpan(n: int, lo: nat, hi: Option<nat>) {
    lo <= n && (hi.Some? ==> n <= hi.value)
  }

  /** The span after one more term of a block. */
  function Stretch(t: Term, lo: nat, hi: Option<nat>): (nat, Option<nat>) {
    var up := if hi.Some? then Some(hi.value + 1) else None;
    match t
    case Char(_) => (lo, hi)
    case One => (lo + 1, up)
    case Star(_) => (lo, None)
    case Plus(_) => (lo + 1, None)
    case Maybe(_) => (lo, up)
  }

  predicate Ordered(lo: nat, hi: Option<nat>) { hi.Some? ==> lo <= hi.value }

  /** Exactly the stretched span is reached by one more term. */
  lemma StretchReaches(t: Term, lo: nat, hi: Option<nat>, n: int) returns (m: int)
    requires !t.Char? && Ordered(lo, hi)
    ensures var (lo', hi') := Stretch(t, lo, hi);
            && Ordered(lo', hi')
            && (InSpan(n, lo', hi') ==> InSpan(m, lo, hi) && m <= n && Takes(t, n - m))
            && (forall k :: InSpan(k, lo, hi) && Takes(t, n - k) ==> InSpan(n, lo', hi'))
  {
    m := match t
      case Char(_) => 0
      case One => n - 1
      case Star(_) => lo
      case Plus(_) => lo
      case Maybe(_) => if hi.Some? && n > hi.value then n - 1 else n;
  }

  /** Matching, block by block: from `a`, the current block may take any number of
      characters in its span; then come the terms. */
  ghost predicate Runs(fold: char -> char, terms: seq<Term>, s: string, a: nat, lo: nat, hi: Option<nat>, end: bool)
    decreases |terms|
  {
    if terms == [] then a + lo <= |s| && (end ==> InSpan(|s| - a, lo, hi))
    else if terms[0].Char? then
      exists k: nat :: HitsAt(fold, terms[0].c, s, a, lo, hi, k) && Runs(fold, terms[1..], s, k + 1, 0, Some(0), end)
    else
      var (lo', hi') := Stretch(terms[0], lo, hi);
      Runs(fold, terms[1..], s, a, lo', hi', end)
  }

  ghost predicate HitsAt(fold: char -> char, c: char, s: string, a: nat, lo: nat, hi: Option<nat>, k: nat) {
    k < |s| && InSpan(k - a, lo, hi) && fold(s[k]) == fold(c)
  }

  /** The tree matches from some position in the span, to the end if it must. */
  ghost predicate SpanFound(fold: char -> char, r: Rx, s: string, a: nat, lo: nat, hi: Option<nat>, end: bool) {
    exists k: nat, j: nat :: k <= |s| && InSpan(k - a, lo, hi) && EndsAt(fold, r, s, k, j, end)
  }

  ghost predicate EndsAt(fold: char -> char, r: Rx, s: string, k: nat, j: nat, end: bool)
    requires k <= |s|
  {
    j in Ends(fold, r, s, k) && (end ==> j == |s|)
  }

  lemma SpanOfEps(fold: char -> char, s: string, a: nat, lo: nat, hi: Option<nat>, end: bool)
    requires Ordered(lo, hi)
    ensures SpanFound(fold, Eps, s, a, lo, hi, end) <==> Runs(fold, [], s, a, lo, hi, end)
  {
    if Runs(fold, [], s, a, lo, hi, end) {
      var k: nat := if end then |s| else a + lo;
      assert EndsAt(fold, Eps, s, k, k, end);
    }
  }

  lemma SpanOfChar(fold: char -> char, c: char, rest: Rx, s: string, a: nat, lo: nat, hi: Option<nat>, end: bool)
    ensures SpanFound(fold, Seq(Lit(c), rest), s, a, lo, hi, end) <==>
            exists k: nat :: HitsAt(fold, c, s, a, lo, hi, k) && SpanFound(fold, rest, s, k + 1, 0, Some(0), end)
  {
    hide Ends;
    var r := Seq(Lit(c), rest);
    if SpanFound(fold, r, s, a, lo, hi, end) {
      var k: nat, j: nat :| k <= |s| && InSpan(k - a, lo, hi) && EndsAt(fold, r, s, k, j, end);
      SeqEnds(fold, Lit(c), rest, s, k, j);
      var m :| m in Ends(fold, Lit(c), s, k) && k <= m <= |s| && j in Ends(fold, rest, s, m);
      CharEnds(fold, c, s, k, m);
      assert EndsAt(fold, rest, s, m, j, end);
      assert SpanFound(fold, rest, s, k + 1, 0, Some(0), end);
      assert HitsAt(fold, c, s, a, lo, hi, k);
    }
    if exists k: nat :: HitsAt(fold, c, s, a, lo, hi, k) && SpanFound(fold, rest, s, k + 1, 0, Some(0), end) {
      var k: nat :| HitsAt(fold, c, s, a, lo, hi, k) && SpanFound(fold, rest, s, k + 1, 0, Some(0), end);
      var m: nat, j: nat :| m <= |s| && InSpan(m - (k + 1), 0, Some(0)) && EndsAt(fold, rest, s, m, j, end);
      CharEnds(fold, c, s, k, m);
      SeqEnds(fold, Lit(c), rest, s, k, j);
      assert EndsAt(fold, r, s, k, j, end);
    }
  }

  /** One more term of a block, given by what its tree takes. */
  lemma SpanOfBlock(fold: char -> char, t: Term, h: Rx, rest: Rx, s: string, a: nat, lo: nat, hi: Option<nat>, end: bool)
    requires !t.Char? && Ordered(lo, hi)
    requires forall i: nat, j: nat :: i <= |s| ==> (j in Ends(fold, h, s, i) <==> j <= |s| && Takes(t, j - i))
    ensures var (lo', hi') := Stretch(t, lo, hi);
            SpanFound(fold, Seq(h, rest), s, a, lo, hi, end) <==> SpanFound(fold, rest, s, a, lo', hi', end)
  {
    hide Ends, Stretch, Takes, InSpan;
    var r := Seq(h, rest);
    var (lo', hi') := Stretch(t, lo, hi);
    if SpanFound(fold, r, s, a, lo, hi, end) {
      var k: nat, j: nat :| k <= |s| && InSpan(k - a, lo, hi) && EndsAt(fold, r, s, k, j, end);
      SeqEnds(fold, h, rest, s, k, j);
      var m: nat :| m in Ends(fold, h, s, k) && k <= m <= |s| && j in Ends(fold, rest, s, m);
      assert Takes(t, m - k);
      assert (m - a) - (k - a) == m - k;
      var _ := StretchReaches(t, lo, hi, m - a);
      assert EndsAt(fold, rest, s, m, j, end);
    }
    if SpanFound(fold, rest, s, a, lo', hi', end) {
      var m: nat, j: nat :| m <= |s| && InSpan(m - a, lo', hi') && EndsAt(fold, rest, s, m, j, end);
      var n := StretchReaches(t, lo, hi, m - a);
      SpanPositive(n, lo, hi);
      var k: nat := a + n;
      assert (m - a) - n == m - k;
      assert Takes(t, m - k);
      assert k <= m <= |s|;
      assert m in Ends(fold, h, s, k);
      SeqEnds(fold, h, rest, s, k, j);
      assert EndsAt(fold, r, s, k, j, end);
      assert InSpan(k - a, lo, hi);
    }
  }

  lemma SpanPositive(n: int, lo: nat, hi: Option<nat>)
    requires InSpan(n, lo, hi)
    ensures n >= 0
  {}

  lemma StretchOrdered(t: Term, lo: nat, hi: Option<nat>)
    requires Ordered(lo, hi)
    ensures Ordered(Stretch(t, lo, hi).0, Stretch(t, lo, hi).1)
  {}

  /** The branch, matched block by block. */
  lemma {:induction false} BranchRuns(fold: char -> char, terms: seq<Term>, s: string, a: nat, lo: nat, hi: Option<nat>, end: bool)
    requires Ordered(lo, hi)
    ensures SpanFound(fold, Branch(terms), s, a, lo, hi, end) <==> Runs(fold, terms, s, a, lo, hi, end)
    decreases |terms|
  {
    hide Ends, SpanFound, InSpan, Takes, Stretch;
    if terms == [] {
      SpanOfEps(fold, s, a, lo, hi, end);
    } else if terms[0].Char? {
      SpanOfChar(fold, terms[0].c, Branch(terms[1..]), s, a, lo, hi, end);
      forall p: nat ensures SpanFound(fold, Branch(terms[1..]), s, p, 0, Some(0), end) <==> Runs(fold, terms[1..], s, p, 0, Some(0), end) {
        BranchRuns(fold, terms[1..], s, p, 0, Some(0), end);
      }
    } else {
      var t := terms[0];
      forall i: nat, j: nat | i <= |s| ensures j in Ends(fold, Tree(t), s, i) <==> j <= |s| && Takes(t, j - i) {
        TermEnds(fold, t, s, i, j);
      }
      SpanOfBlock(fold, t, Tree(t), Branch(terms[1..]), s, a, lo, hi, end);
      StretchOrdered(t, lo, hi);
      BranchRuns(fold, terms[1..], s, a, Stretch(t, lo, hi).0, Stretch(t, lo, hi).1, end);
    }
  }

  /** The branch as read is the widened branch. */
  lemma {:induction false} ReadRuns(fold: char -> char, alnum: char -> bool, terms: seq<Term>, s: string, a: nat, lo: nat, hi: Option<nat>, end: bool)
    requires Ordered(lo, hi)
    ensures SpanFound(fold, AsRead(alnum, Branch(terms)), s, a, lo, hi, end) <==> Runs(fold, WidenAll(terms), s, a, lo, hi, end)
    decreases |terms|
  {
    hide Ends, SpanFound, InSpan, Takes, Stretch;
    if terms == [] {
      SpanOfEps(fold, s, a, lo, hi, end);
    } else {
      var rest := AsRead(alnum, Branch(terms[1..]));
      assert WidenAll(terms)[0] == Widen(terms[0]) && WidenAll(terms)[1..] == WidenAll(terms[1..]);
      assert AsRead(alnum, Branch(terms)) == Seq(AsRead(alnum, Tree(terms[0])), rest);
      if terms[0].Char? {
        SpanOfChar(fold, terms[0].c, rest, s, a, lo, hi, end);
        forall p: nat ensures SpanFound(fold, rest, s, p, 0, Some(0), end) <==> Runs(fold, WidenAll(terms[1..]), s, p, 0, Some(0), end) {
          ReadRuns(fold, alnum, terms[1..], s, p, 0, Some(0), end);
        }
      } else {
        var t := terms[0];
        forall i: nat, j: nat | i <= |s| ensures j in Ends(fold, AsRead(alnum, Tree(t)), s, i) <==> j <= |s| && Takes(Widen(t), j - i) {
          AsReadEnds(fold, alnum, t, s, i, j);
        }
        hide AsRead;
        SpanOfBlock(fold, Widen(t), AsRead(alnum, Tree(t)), rest, s, a, lo, hi, end);
        StretchOrdered(Widen(t), lo, hi);
        ReadRuns(fold, alnum, terms[1..], s, a, Stretch(Widen(t), lo, hi).0, Stretch(Widen(t), lo, hi).1, end);
      }
    }
  }

  // ------------------------------------------------------- loose blocks lose nothing

  /** Where the source and the widened block stand, given what the block held. */
  predicate Beside(maybe: bool, run: bool, lo: nat, hi: Option<nat>, wide: Option<nat>) {
    && Ordered(lo, hi) && (hi.None? ==> wide.None?)
    && (run <==> hi.None?) && (maybe && !run ==> wide.None?) && (!maybe && !run ==> wide == hi == Some(lo))
  }

  lemma BesideStep(t: Term, maybe: bool, run: bool, lo: nat, hi: Option<nat>, wide: Option<nat>)
    requires !t.Char? && Beside(maybe, run, lo, hi, wide)
    ensures var (lo', hi') := Stretch(t, lo, hi);
            var (low, wide') := Stretch(Widen(t), lo, wide);
            lo' == low && Beside(maybe || t.Maybe?, run || t.Star? || t.Plus?, lo', hi', wide')
  {}

  lemma {:induction false} LooseIsExact(fold: char -> char, terms: seq<Term>, s: string, a: nat, maybe: bool, run: bool,
                                        lo: nat, hi: Option<nat>, wide: Option<nat>, end: bool)
    requires Beside(maybe, run, lo, hi, wide) && !Tight(terms, maybe, run, end)
    requires Runs(fold, WidenAll(terms), s, a, lo, wide, end)
    ensures Runs(fold, terms, s, a, lo, hi, end)
    decreases |terms|
  {
    if terms != [] {
      assert WidenAll(terms)[0] == Widen(terms[0]) && WidenAll(terms)[1..] == WidenAll(terms[1..]);
      if terms[0].Char? {
        var k: nat :| HitsAt(fold, terms[0].c, s, a, lo, wide, k) && Runs(fold, WidenAll(terms[1..]), s, k + 1, 0, Some(0), end);
        LooseIsExact(fold, terms[1..], s, k + 1, false, false, 0, Some(0), Some(0), end);
        assert HitsAt(fold, terms[0].c, s, a, lo, hi, k);
      } else {
        var t := terms[0];
        BesideStep(t, maybe, run, lo, hi, wide);
        var (lo', hi') := Stretch(t, lo, hi);
        hide Stretch, Beside;
        LooseIsExact(fold, terms[1..], s, a, maybe || t.Maybe?, run || t.Star? || t.Plus?, lo', hi', Stretch(Widen(t), lo, wide).1, end);
      }
    }
  }

  /** The widened branch matches whatever the branch matches. */
  lemma {:induction false} WiderMatches(fold: char -> char, terms: seq<Term>, s: string, a: nat, lo: nat, hi: Option<nat>, wide: Option<nat>, end: bool)
    requires wide.Some? ==> hi.Some? && hi.value <= wide.value
    requires Runs(fold, terms, s, a, lo, hi, end)
    ensures Runs(fold, WidenAll(terms), s, a, lo, wide, end)
    decreases |terms|
  {
    if terms != [] {
      assert WidenAll(terms)[0] == Widen(terms[0]) && WidenAll(terms)[1..] == WidenAll(terms[1..]);
      if terms[0].Char? {
        var k: nat :| HitsAt(fold, terms[0].c, s, a, lo, hi, k) && Runs(fold, terms[1..], s, k + 1, 0, Some(0), end);
        WiderMatches(fold, terms[1..], s, k + 1, 0, Some(0), Some(0), end);
        assert HitsAt(fold, terms[0].c, s, a, lo, wide, k);
      } else {
        WiderMatches(fold, terms[1..], s, a, Stretch(terms[0], lo, hi).0, Stretch(terms[0], lo, hi).1,
                     Stretch(Widen(terms[0]), lo, wide).1, end);
      }
    }
  }

  // --------------------------------------------------------- a tight block over-matches

  function Filled(x: char, n: nat): string { seq(n, i requires 0 <= i < n => x) }

  /** How many fresh characters to put into the block. */
  function Count(terms: seq<Term>, maybe: bool, run: bool, lo: nat, hi: Option<nat>, end: bool): nat {
    if maybe && !run && (terms != [] || end) && hi.Some? then hi.value + 1 else lo
  }

  /** The characters in order, every block at its least, but a tight block one
      character beyond its most. */
  function Witness(terms: seq<Term>, maybe: bool, run: bool, lo: nat, hi: Option<nat>, end: bool, x: char): string {
    var fill := Filled(x, Count(terms, maybe, run, lo, hi, end));
    if terms == [] then fill
    else if terms[0].Char? then fill + [terms[0].c] + Witness(terms[1..], false, false, 0, Some(0), end, x)
    else
      var t := terms[0];
      var (lo', hi') := Stretch(t, lo, hi);
      Witness(terms[1..], maybe || t.Maybe?, run || t.Star? || t.Plus?, lo', hi', end, x)
  }

  ghost predicate Fresh(fold: char -> char, terms: seq<Term>, x: char) {
    forall k :: 0 <= k < |terms| && terms[k].Char? ==> fold(terms[k].c) != fold(x)
  }

  function Chars(terms: seq<Term>): nat {
    if terms == [] then 0 else Chars(terms[1..]) + if terms[0].Char? then 1 else 0
  }

  /** Characters from `a` on that are not the fresh one. */
  ghost function Others(fold: char -> char, s: string, a: nat, x: char): nat
    decreases |s| - a
  {
    if a >= |s| then 0 else Others(fold, s, a + 1, x) + if fold(s[a]) == fold(x) then 0 else 1
  }

  lemma {:induction false} OthersShrink(fold: char -> char, s: string, a: nat, b: nat, x: char)
    requires a <= b
    ensures Others(fold, s, b, x) <= Others(fold, s, a, x)
    decreases b - a
  {
    if a < b { OthersShrink(fold, s, a + 1, b, x); }
  }

  lemma {:induction false} OthersSkip(fold: char -> char, s: string, a: nat, n: nat, x: char)
    requires a + n <= |s| && forall i :: a <= i < a + n ==> s[i] == x
    ensures Others(fold, s, a, x) == Others(fold, s, a + n, x)
    decreases n
  {
    if n > 0 { OthersSkip(fold, s, a + 1, n - 1, x); }
  }

  /** Every character of the branch needs a character of the string. */
  lemma {:induction false} CharsNeeded(fold: char -> char, terms: seq<Term>, s: string, a: nat, lo: nat, hi: Option<nat>, end: bool, x: char)
    requires Runs(fold, terms, s, a, lo, hi, end) && Fresh(fold, terms, x)
    ensures Chars(terms) <= Others(fold, s, a, x)
    decreases |terms|
  {
    if terms != [] {
      assert Fresh(fold, terms[1..], x);
      if terms[0].Char? {
        var k: nat :| HitsAt(fold, terms[0].c, s, a, lo, hi, k) && Runs(fold, terms[1..], s, k + 1, 0, Some(0), end);
        CharsNeeded(fold, terms[1..], s, k + 1, 0, Some(0), end, x);
        OthersShrink(fold, s, a, k, x);
      } else {
        CharsNeeded(fold, terms[1..], s, a, Stretch(terms[0], lo, hi).0, Stretch(terms[0], lo, hi).1, end, x);
      }
    }
  }

  /** The string continues at `a` with the witness of these terms. */
  ghost predicate Continues(s: string, a: nat, terms: seq<Term>, maybe: bool, run: bool, lo: nat, hi: Option<nat>, end: bool, x: char) {
    a <= |s| && s[a..] == Witness(terms, maybe, run, lo, hi, end, x)
  }

  lemma ContinuesAfterChar(s: string, a: nat, terms: seq<Term>, maybe: bool, run: bool, lo: nat, hi: Option<nat>, end: bool, x: char)
    requires Continues(s, a, terms, maybe, run, lo, hi, end, x) && terms != [] && terms[0].Char?
    ensures var k := a + Count(terms, maybe, run, lo, hi, end);
            && k < |s| && s[k] == terms[0].c && (forall i :: a <= i < k ==> s[i] == x)
            && Continues(s, k + 1, terms[1..], false, false, 0, Some(0), end, x)
  {
    hide Witness;
    var n := Count(terms, maybe, run, lo, hi, end);
    var rest := Witness(terms[1..], false, false, 0, Some(0), end, x);
    var w := Filled(x, n) + [terms[0].c] + rest;
    WitnessOfChar(terms, maybe, run, lo, hi, end, x);
    assert s[a..] == w;
    forall i | a <= i < a + n ensures s[i] == x { assert s[i] == w[i - a]; }
    assert s[a + n] == w[n];
    assert s[a + n + 1..] == w[n + 1..] == rest;
  }

  lemma WitnessOfChar(terms: seq<Term>, maybe: bool, run: bool, lo: nat, hi: Option<nat>, end: bool, x: char)
    requires terms != [] && terms[0].Char?
    ensures Witness(terms, maybe, run, lo, hi, end, x) ==
            Filled(x, Count(terms, maybe, run, lo, hi, end)) + [terms[0].c] + Witness(terms[1..], false, false, 0, Some(0), end, x)
  {}

  lemma {:induction false} WitnessCount(fold: char -> char, s: string, a: nat, terms: seq<Term>, maybe: bool, run: bool,
                                        lo: nat, hi: Option<nat>, end: bool, x: char)
    requires Continues(s, a, terms, maybe, run, lo, hi, end, x) && Fresh(fold, terms, x)
    ensures Others(fold, s, a, x) == Chars(terms)
    decreases |terms|
  {
    if terms == [] {
      forall i | a <= i < |s| ensures s[i] == x { assert s[i] == s[a..][i - a]; }
      OthersSkip(fold, s, a, |s| - a, x);
    } else {
      assert Fresh(fold, terms[1..], x);
      if terms[0].Char? {
        ContinuesAfterChar(s, a, terms, maybe, run, lo, hi, end, x);
        var n := Count(terms, maybe, run, lo, hi, end);
        OthersSkip(fold, s, a, n, x);
        WitnessCount(fold, s, a + n + 1, terms[1..], false, false, 0, Some(0), end, x);
      } else {
        var t := terms[0];
        WitnessCount(fold, s, a, terms[1..], maybe || t.Maybe?, run || t.Star? || t.Plus?,
                     Stretch(t, lo, hi).0, Stretch(t, lo, hi).1, end, x);
      }
    }
  }

  /** The widened branch matches its witness. */
  lemma {:induction false} WitnessMatches(fold: char -> char, s: string, a: nat, terms: seq<Term>, maybe: bool, run: bool,
                                          lo: nat, hi: Option<nat>, wide: Option<nat>, end: bool, x: char)
    requires Continues(s, a, terms, maybe, run, lo, hi, end, x) && Beside(maybe, run, lo, hi, wide)
    ensures Runs(fold, WidenAll(terms), s, a, lo, wide, end)
    decreases |terms|
  {
    if terms == [] {
      assert |s| - a == Count(terms, maybe, run, lo, hi, end);
    } else {
      WidenParts(terms);
      if terms[0].Char? {
        hide Witness, Stretch, Count, WidenAll;
        ContinuesAfterChar(s, a, terms, maybe, run, lo, hi, end, x);
        var k: nat := a + Count(terms, maybe, run, lo, hi, end);
        WitnessMatches(fold, s, k + 1, terms[1..], false, false, 0, Some(0), Some(0), end, x);
        assert HitsAt(fold, terms[0].c, s, a, lo, wide, k);
      } else {
        var t := terms[0];
        BesideStep(t, maybe, run, lo, hi, wide);
        hide Beside, WidenAll;
        WitnessMatches(fold, s, a, terms[1..], maybe || t.Maybe?, run || t.Star? || t.Plus?,
                       Stretch(t, lo, hi).0, Stretch(t, lo, hi).1, Stretch(Widen(t), lo, wide).1, end, x);
      }
    }
  }

  lemma WidenParts(terms: seq<Term>)
    requires terms != []
    ensures WidenAll(terms) != [] && WidenAll(terms)[0] == Widen(terms[0]) && WidenAll(terms)[1..] == WidenAll(terms[1..])
  {
    assert WidenAll(terms) == [Widen(terms[0])] + WidenAll(terms[1..]);
  }

  /** A branch with a tight block does not match it. */
  lemma {:induction false} WitnessMisses(fold: char -> char, s: string, a: nat, terms: seq<Term>, maybe: bool, run: bool,
                                         lo: nat, hi: Option<nat>, end: bool, x: char)
    requires Continues(s, a, terms, maybe, run, lo, hi, end, x) && Fresh(fold, terms, x) && Ordered(lo, hi) && (run <==> hi.None?)
    requires Tight(terms, maybe, run, end)
    ensures !Runs(fold, terms, s, a, lo, hi, end)
    decreases |terms|
  {
    if terms == [] {
      assert |s| - a == hi.value + 1;
    } else {
      assert Fresh(fold, terms[1..], x);
      if terms[0].Char? {
        ContinuesAfterChar(s, a, terms, maybe, run, lo, hi, end, x);
        forall k: nat | HitsAt(fold, terms[0].c, s, a, lo, hi, k) ensures !Runs(fold, terms[1..], s, k + 1, 0, Some(0), end) {
          CharMisses(fold, s, a, terms, maybe, run, lo, hi, end, x, k);
          if !(maybe && !run) && k == a + lo {
            WitnessMisses(fold, s, k + 1, terms[1..], false, false, 0, Some(0), end, x);
          }
        }
      } else {
        var t := terms[0];
        StretchOrdered(t, lo, hi);
        WitnessMisses(fold, s, a, terms[1..], maybe || t.Maybe?, run || t.Star? || t.Plus?,
                      Stretch(t, lo, hi).0, Stretch(t, lo, hi).1, end, x);
      }
    }
  }

  /** Elsewhere than right after its block the character leaves too few behind. */
  lemma CharMisses(fold: char -> char, s: string, a: nat, terms: seq<Term>, maybe: bool, run: bool,
                   lo: nat, hi: Option<nat>, end: bool, x: char, k: nat)
    requires Continues(s, a, terms, maybe, run, lo, hi, end, x) && Fresh(fold, terms, x) && (run <==> hi.None?)
    requires terms != [] && terms[0].Char? && HitsAt(fold, terms[0].c, s, a, lo, hi, k)
    ensures Runs(fold, terms[1..], s, k + 1, 0, Some(0), end) ==> k == a + Count(terms, maybe, run, lo, hi, end)
  {
    hide Runs, Witness;
    ContinuesAfterChar(s, a, terms, maybe, run, lo, hi, end, x);
    var e := a + Count(terms, maybe, run, lo, hi, end);
    assert fold(terms[0].c) != fold(x) && Fresh(fold, terms[1..], x);
    assert k >= e;
    if k > e && Runs(fold, terms[1..], s, k + 1, 0, Some(0), end) {
      CharsNeeded(fold, terms[1..], s, k + 1, 0, Some(0), end, x);
      WitnessCount(fold, s, e + 1, terms[1..], false, false, 0, Some(0), end, x);
      OthersShrink(fold, s, e + 1, k, x);
    }
  }

  // -------------------------------------------------------------------- the theorem

  /** The span before the first term: nothing at an anchor, anything otherwise. */
  function Before(start: bool): Option<nat> { if start then Some(0) else None }

  lemma FoundIsSpan(fold: char -> char, r: Rx, start: bool, end: bool, s: string)
    ensures BodyFound(fold, start, r, end, s) <==> SpanFound(fold, r, s, 0, 0, Before(start), end)
  {
    if BodyFound(fold, start, r, end, s) {
      var i, j :| Window(s, start, end, i, j) && j in Ends(fold, r, s, i);
      assert EndsAt(fold, r, s, i, j, end);
    }
    if SpanFound(fold, r, s, 0, 0, Before(start), end) {
      var k: nat, j: nat :| k <= |s| && InSpan(k - 0, 0, Before(start)) && EndsAt(fold, r, s, k, j, end);
      EndsRange(Ends(fold, r, s, k), k, |s|, j);
      assert Window(s, start, end, k, j);
    }
  }

  lemma FoundRuns(fold: char -> char, alnum: char -> bool, terms: seq<Term>, start: bool, end: bool, s: string)
    ensures BodyFound(fold, start, Branch(terms), end, s) <==> Runs(fold, terms, s, 0, 0, Before(start), end)
    ensures BodyFound(fold, start, AsRead(alnum, Branch(terms)), end, s) <==> Runs(fold, WidenAll(terms), s, 0, 0, Before(start), end)
  {
    BeforeOrdered(start);
    hide *;
    FoundIsSpan(fold, Branch(terms), start, end, s);
    FoundIsSpan(fold, AsRead(alnum, Branch(terms)), start, end, s);
    BranchRuns(fold, terms, s, 0, 0, Before(start), end);
    ReadRuns(fold, alnum, terms, s, 0, 0, Before(start), end);
  }

  lemma BeforeOrdered(start: bool)
    ensures Ordered(0, Before(start))
  {}

  /** The branch and the branch as read find the same strings exactly when no
      block is tight. */
  lemma SameStrings(fold: char -> char, alnum: char -> bool, terms: seq<Term>, start: bool, end: bool, x: char)
    requires Fresh(fold, terms, x)
    ensures (forall s :: BodyFound(fold, start, Branch(terms), end, s) <==> BodyFound(fold, start, AsRead(alnum, Branch(terms)), end, s))
            <==> !Tight(terms, false, !start, end)
  {
    hide BodyFound, Runs, AsRead, Branch, Tight, SpanFound, Witness;
    var hi := Before(start);
    forall s
      ensures BodyFound(fold, start, Branch(terms), end, s) <==> Runs(fold, terms, s, 0, 0, hi, end)
      ensures BodyFound(fold, start, AsRead(alnum, Branch(terms)), end, s) <==> Runs(fold, WidenAll(terms), s, 0, 0, hi, end)
    {
      FoundRuns(fold, alnum, terms, start, end, s);
    }
    if Tight(terms, false, !start, end) {
      var s := Witness(terms, false, !start, 0, hi, end, x);
      assert s[0..] == s;
      WitnessMatches(fold, s, 0, terms, false, !start, 0, hi, hi, end, x);
      WitnessMisses(fold, s, 0, terms, false, !start, 0, hi, end, x);
      assert BodyFound(fold, start, AsRead(alnum, Branch(terms)), end, s) && !BodyFound(fold, start, Branch(terms), end, s);
    } else {
      forall s ensures Runs(fold, terms, s, 0, 0, hi, end) <==> Runs(fold, WidenAll(terms), s, 0, 0, hi, end) {
        if Runs(fold, terms, s, 0, 0, hi, end) { WiderMatches(fold, terms, s, 0, 0, hi, hi, end); }
        if Runs(fold, WidenAll(terms), s, 0, 0, hi, end) { LooseIsExact(fold, terms, s, 0, false, !start, 0, hi, hi, end); }
      }
    }
  }

  lemma {:induction false} BranchHasNoLadder(alnum: char -> bool, terms: seq<Term>)
    ensures !Narrowed(alnum, Branch(terms)) && !Branch(terms).Or?
  {
    if terms != [] {
      assert !Narrowed(alnum, Dot) && !Narrowed(alnum, Tree(terms[0]));
      BranchHasNoLadder(alnum, terms[1..]);
    }
  }

  /** For every accepted text of this kind: the emitted values match exactly the
      strings the source finds, if and only if no `.?` stands in a tight block. */
  lemma OptionalDotExactly(fold: char -> char, alnum: char -> bool, text: string, terms: seq<Term>, x: char)
    requires KnowsAscii(alnum) && Translate(alnum, text).Some? && TreeOf(alnum, text) == Branch(terms) && Fresh(fold, terms, x)
    ensures (forall s :: Found(fold, SourceTree(alnum, text), s) <==> Emitted(fold, alnum, text, s))
            <==> !Tight(terms, false, !ReadSource(text).start, ReadSource(text).end)
  {
    var src := ReadSource(text);
    BranchHasNoLadder(alnum, terms);
    TranslateEmits(alnum, text);
    hide Found, Emitted, BodyFound, Tight, AsRead, Branch;
    forall s
      ensures Found(fold, SourceTree(alnum, text), s) <==> BodyFound(fold, src.start, Branch(terms), src.end, s)
      ensures Emitted(fold, alnum, text, s) <==> BodyFound(fold, src.start, AsRead(alnum, Branch(terms)), src.end, s)
    {
      AnchoredFound(fold, alnum, src.start, Branch(terms), src.end, s);
      EmittedExactly(fold, alnum, text, s);
    }
    SameStrings(fold, alnum, terms, src.start, src.end, x);
  }
}
