/** Texts whose branches are literal words: exactly when may the edge anchors be
    taken outside all branches? */
module EdgeAnchors {
  import opened Options
  import opened RegexSyntax
  import opened RegexSemantics
  import opened Expansion
  import opened Wildcards
  import opened TranslationMeaning
  import opened TranslationTheorems
  import opened EmittedMeaning

  function Word(w: string): Rx {
    if w == "" then Eps else Seq(Lit(w[0]), Word(w[1..]))
  }

  function Words(ws: seq<string>): Rx
    requires ws != []
  {
    if |ws| == 1 then Word(ws[0]) else Or(Word(ws[0]), Words(ws[1..]))
  }

  // ------------------------------------------------------------------ matching words

  lemma {:induction false} WordEnds(fold: char -> char, w: string, s: string, i: nat, j: nat)
    requires i <= |s|
    ensures j in Ends(fold, Word(w), s, i) <==> j == i + |w| <= |s| && SameFolded(fold, w, s[i..j])
    decreases |w|
  {
    if w != "" {
      var rest := Word(w[1..]);
      SeqEnds(fold, Lit(w[0]), rest, s, i, j);
      LitEnds(fold, w[0], s, i);
      if i < |s| {
        WordEnds(fold, w[1..], s, i + 1, j);
        if j == i + |w| <= |s| {
          assert s[i..j][1..] == s[i + 1..j];
          SameFoldedCons(fold, w, s[i..j]);
        }
      }
    }
  }

  lemma LitEnds(fold: char -> char, c: char, s: string, i: nat)
    requires i <= |s|
    ensures Ends(fold, Lit(c), s, i) == if i < |s| && fold(c) == fold(s[i]) then [i + 1] else []
  {}

  /** A match of the words is a match of one of them. */
  lemma {:induction false} WordsEnd(fold: char -> char, ws: seq<string>, s: string, i: nat, j: nat) returns (k: nat)
    requires i <= |s| && ws != [] && j in Ends(fold, Words(ws), s, i)
    ensures k < |ws| && j in Ends(fold, Word(ws[k]), s, i)
    decreases |ws|
  {
    if j in Ends(fold, Word(ws[0]), s, i) {
      k := 0;
    } else {
      var m := WordsEnd(fold, ws[1..], s, i, j);
      k := m + 1;
    }
  }

  // ------------------------------------------------------------- plain and exact trees

  lemma {:induction false} WordPlain(alnum: char -> bool, w: string)
    ensures var r := Word(w);
            && PlainlyRead(r) && NoPossessive(r) && NoOptionalDot(alnum, r) && !Lossy(alnum, r) && !Narrowed(alnum, r)
            && AsRead(alnum, r) == r && !r.Or?
  {
    if w != "" { WordPlain(alnum, w[1..]); }
  }

  lemma {:induction false} WordsPlain(alnum: char -> bool, ws: seq<string>)
    requires ws != []
    ensures var r := Words(ws);
            && PlainlyRead(r) && NoPossessive(r) && NoOptionalDot(alnum, r) && !Lossy(alnum, r) && !Narrowed(alnum, r)
            && AsRead(alnum, r) == r && (r.Or? <==> |ws| > 1)
    decreases |ws|
  {
    WordPlain(alnum, ws[0]);
    if |ws| > 1 { WordsPlain(alnum, ws[1..]); }
  }

  // ------------------------------------------------------------------------ witnesses

  ghost predicate FreshTo(fold: char -> char, ws: seq<string>, x: char) {
    forall k, c :: 0 <= k < |ws| && 0 <= c < |ws[k]| ==> fold(ws[k][c]) != fold(x)
  }

  lemma Itself(fold: char -> char, w: string, s: string, i: nat)
    requires i + |w| <= |s| && s[i..i + |w|] == w
    ensures i + |w| in Ends(fold, Word(w), s, i)
  {
    WordEnds(fold, w, s, i, i + |w|);
  }

  lemma EitherFound(fold: char -> char, l: Rx, r: Rx, s: string, i: nat, j: nat)
    requires i <= |s| && (j in Ends(fold, l, s, i) || j in Ends(fold, r, s, i))
    ensures Found(fold, Or(l, r), s) && j in Ends(fold, Or(l, r), s, i)
  {
    assert Ends(fold, Or(l, r), s, i) == Ends(fold, l, s, i) + Ends(fold, r, s, i);
  }

  /** The first branch is not held by the end anchor. */
  lemma FirstBranchFound(fold: char -> char, start: bool, ws: seq<string>, x: char)
    requires |ws| > 1
    ensures Found(fold, Anchored(start, Words(ws), true), ws[0] + [x])
  {
    var w, s := ws[0], ws[0] + [x];
    var left := if start then Seq(Start, Word(w)) else Word(w);
    var tail := AttachEnd(Words(ws[1..]));
    assert Anchored(start, Words(ws), true) == Or(left, tail);
    assert Ends(fold, Start, s, 0) == [0];
    assert s[0..|w|] == w;
    hide Ends, Found, Anchored, AttachEnd, Words, Word;
    Itself(fold, w, s, 0);
    if start { SeqEnds(fold, Start, Word(w), s, 0, |w|); }
    EitherFound(fold, left, tail, s, 0, |w|);
  }

  /** Nor is the second by the start anchor. */
  lemma SecondBranchFound(fold: char -> char, ws: seq<string>, x: char)
    requires |ws| > 1
    ensures Found(fold, Anchored(true, Words(ws), false), [x] + ws[1])
  {
    var w, s := ws[1], [x] + ws[1];
    var rest, left := Words(ws[1..]), Seq(Start, Word(ws[0]));
    assert Anchored(true, Words(ws), false) == Or(left, rest);
    assert s[1..1 + |w|] == w;
    hide Ends, Found, Anchored, Words, Word;
    Itself(fold, w, s, 1);
    FirstOfWords(fold, ws[1..], s, 1, 1 + |w|);
    EitherFound(fold, left, rest, s, 1, 1 + |w|);
  }

  lemma FirstOfWords(fold: char -> char, ws: seq<string>, s: string, i: nat, j: nat)
    requires ws != [] && i <= |s| && j in Ends(fold, Word(ws[0]), s, i)
    ensures j in Ends(fold, Words(ws), s, i)
  {
    hide Ends, Word;
    if |ws| > 1 { EitherFound(fold, Word(ws[0]), Words(ws[1..]), s, i, j); }
  }

  /** With an anchor beside an alternation, some string is found and not found with
      the anchors outside. */
  lemma AnchorsDiffer(fold: char -> char, start: bool, ws: seq<string>, end: bool, x: char) returns (s: string)
    requires |ws| > 1 && (start || end) && (forall k :: 0 <= k < |ws| ==> ws[k] != "") && FreshTo(fold, ws, x)
    ensures Found(fold, Anchored(start, Words(ws), end), s) && !BodyFound(fold, start, Words(ws), end, s)
  {
    hide Found, BodyFound, Anchored, Words, FreshTo;
    if end {
      s := ws[0] + [x];
      FirstBranchFound(fold, start, ws, x);
      FreshLastMissed(fold, start, ws, ws[0], x);
    } else {
      s := [x] + ws[1];
      SecondBranchFound(fold, ws, x);
      FreshFirstMissed(fold, false, ws, ws[1], x);
    }
  }

  /** With the end anchor outside, no word reaches a fresh last character. */
  lemma FreshLastMissed(fold: char -> char, start: bool, ws: seq<string>, v: string, x: char)
    requires ws != [] && (forall k :: 0 <= k < |ws| ==> ws[k] != "") && FreshTo(fold, ws, x)
    ensures !BodyFound(fold, start, Words(ws), true, v + [x])
  {
    hide Ends;
    var s := v + [x];
    forall i: nat, j: nat | Window(s, start, true, i, j) ensures j !in Ends(fold, Words(ws), s, i) {
      if j in Ends(fold, Words(ws), s, i) {
        var k := WordsEnd(fold, ws, s, i, j);
        WordEnds(fold, ws[k], s, i, j);
        LastDiffers(fold, ws[k], s, i, x);
      }
    }
  }

  lemma LastDiffers(fold: char -> char, w: string, s: string, i: nat, x: char)
    requires w != "" && s != "" && s[|s| - 1] == x && i + |w| == |s| && forall c :: 0 <= c < |w| ==> fold(w[c]) != fold(x)
    ensures !SameFolded(fold, w, s[i..|s|])
  {
    assert s[i..|s|][|w| - 1] == x;
  }

  lemma FreshFirstMissed(fold: char -> char, end: bool, ws: seq<string>, v: string, x: char)
    requires ws != [] && (forall k :: 0 <= k < |ws| ==> ws[k] != "") && FreshTo(fold, ws, x)
    ensures !BodyFound(fold, true, Words(ws), end, [x] + v)
  {
    hide Ends;
    var s := [x] + v;
    forall i: nat, j: nat | Window(s, true, end, i, j) ensures j !in Ends(fold, Words(ws), s, i) {
      if j in Ends(fold, Words(ws), s, i) {
        var k := WordsEnd(fold, ws, s, i, j);
        WordEnds(fold, ws[k], s, i, j);
        FirstDiffers(fold, ws[k], s, j, x);
      }
    }
  }

  lemma FirstDiffers(fold: char -> char, w: string, s: string, j: nat, x: char)
    requires w != "" && s != "" && s[0] == x && j == |w| <= |s| && forall c :: 0 <= c < |w| ==> fold(w[c]) != fold(x)
    ensures !SameFolded(fold, w, s[0..j])
  {
    assert s[0..j][0] == x;
  }

  // -------------------------------------------------------------------- the theorem

  /** For every accepted text whose branches are words: the emitted values match
      exactly the strings the source finds, if and only if no anchor stands beside
      an alternation. */
  lemma AnchorsExactly(fold: char -> char, alnum: char -> bool, text: string, ws: seq<string>, x: char)
    requires KnowsAscii(alnum) && Translate(alnum, text).Some? && ws != [] && TreeOf(alnum, text) == Words(ws)
    requires (forall k :: 0 <= k < |ws| ==> ws[k] != "") && FreshTo(fold, ws, x)
    ensures (forall s :: Found(fold, SourceTree(alnum, text), s) <==> Emitted(fold, alnum, text, s)) <==> AnchorsReadRight(alnum, text)
  {
    var src := ReadSource(text);
    WordsPlain(alnum, ws);
    TranslateEmits(alnum, text);
    hide Found, Emitted, BodyFound, Words, AsRead, FreshTo, PlainlyRead, NoPossessive, NoOptionalDot, Lossy, Narrowed, Expand, Emit;
    if AnchorsReadRight(alnum, text) {
      forall s ensures Found(fold, SourceTree(alnum, text), s) <==> Emitted(fold, alnum, text, s) { Exactness(fold, alnum, text, s); }
    } else {
      var s := AnchorsDiffer(fold, src.start, ws, src.end, x);
      EmittedExactly(fold, alnum, text, s);
      assert Found(fold, SourceTree(alnum, text), s) && !Emitted(fold, alnum, text, s);
    }
  }
}
