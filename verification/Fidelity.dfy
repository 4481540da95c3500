/** Tree by tree: what the matcher accepts against what the expansion matches. */
module Fidelity {
  import opened Options
  import opened RegexSyntax
  import opened RegexSemantics
  import opened Expansion
  import opened Wildcards
  import opened TranslationMeaning

  lemma EndsRange(ends: seq<nat>, lo: nat, hi: nat, j: nat)
    requires Within(ends, lo, hi) && j in ends
    ensures lo <= j <= hi
  {}

  // --------------------------------------------------------------------- leaves

  predicate IsLeaf(r: Rx) {
    r.Eps? || r.Class? || r.Escape? || r.Hex? || r.Dot? || r.Lit?
  }

  lemma LiteralLeaf(fold: char -> char, c: char, s: string, i: nat, j: nat)
    requires i <= j <= |s|
    ensures SomeMatches(fold, [[PartLit(c)]], s[i..j]) <==> i + 1 == j && fold(c) == fold(s[i])
  {
    SomeMatchesOne(fold, [PartLit(c)], s[i..j]);
    LiteralParts(fold, c, s[i..j]);
  }

  lemma OneLeaf(fold: char -> char, s: string, i: nat, j: nat)
    requires i <= j <= |s|
    ensures SomeMatches(fold, [[PartOne]], s[i..j]) <==> i + 1 == j
  {
    SomeMatchesOne(fold, [PartOne], s[i..j]);
    OneParts(fold, s[i..j]);
  }

  lemma HexLeaf(fold: char -> char, hi: char, lo: char, s: string, i: nat, j: nat)
    requires i <= |s| && ProperHex(hi, lo)
    ensures ReadHex(hi, lo).Some?
    ensures j in Ends(fold, Hex(hi, lo), s, i) <==>
            i + 1 == j <= |s| && fold(ReadHex(hi, lo).value) == fold(s[i])
  {
    var c := ReadHex(hi, lo).value;
    assert HexText(hi, lo) == [c] && hi != '+';
    HexEnds(fold, hi, lo, c, s, i);
    hide Ends, ReadHex, HexDigitValue;
    if i < |s| { assert s[i..i + 1] == [s[i]]; }
  }

  lemma HexEnds(fold: char -> char, hi: char, lo: char, c: char, s: string, i: nat)
    requires i <= |s| && hi != '+' && HexText(hi, lo) == [c]
    ensures Ends(fold, Hex(hi, lo), s, i) == if i + 1 <= |s| && SameFolded(fold, [c], s[i..i + 1]) then [i + 1] else []
  {
    hide HexText;
  }

  lemma ClassLeaf(fold: char -> char, alnum: char -> bool, items: string, s: string, i: nat, j: nat)
    requires KnowsAscii(alnum) && SimpleClass(items) && i <= j <= |s|
    ensures j in Ends(fold, Class(items), s, i) ==> SomeMatches(fold, ClassParts(alnum, items), s[i..j])
    ensures !ClassLossy(alnum, items) && SomeMatches(fold, ClassParts(alnum, items), s[i..j]) ==>
              j in Ends(fold, Class(items), s, i)
  {
    if ClassLossy(alnum, items) {
      OneLeaf(fold, s, i, j);
    } else {
      SinglesMatch(fold, Enumerate(alnum, items).value, s[i..j]);
      if i < |s| { ClassExact(fold, alnum, items, s[i]); }
    }
  }

  lemma EscapeLeaf(fold: char -> char, alnum: char -> bool, c: char, s: string, i: nat, j: nat)
    requires i <= j <= |s| && c != 'v'
    ensures j in Ends(fold, Escape(c), s, i) ==> SomeMatches(fold, Expand(alnum, Escape(c)).value, s[i..j])
    ensures !Lossy(alnum, Escape(c)) && SomeMatches(fold, Expand(alnum, Escape(c)).value, s[i..j]) ==>
              j in Ends(fold, Escape(c), s, i)
  {
    if c == 'b' || c == 'B' {
      SomeMatchesOne(fold, [], s[i..j]);
    } else if IsShorthand(c) {
      OneLeaf(fold, s, i, j);
    } else {
      LiteralLeaf(fold, EscapedChar(c), s, i, j);
    }
  }

  lemma Leaf(fold: char -> char, alnum: char -> bool, r: Rx, s: string, i: nat, j: nat)
    requires IsLeaf(r) && KnowsAscii(alnum) && PlainlyRead(r) && i <= j <= |s|
    ensures Expand(alnum, r).Some?
    ensures j in Ends(fold, r, s, i) ==> SomeMatches(fold, Expand(alnum, r).value, s[i..j])
    ensures !Lossy(alnum, r) && SomeMatches(fold, Expand(alnum, r).value, s[i..j]) ==> j in Ends(fold, r, s, i)
  {
    match r
    case Eps => SomeMatchesOne(fold, [], s[i..j]);
    case Class(items) => ClassLeaf(fold, alnum, items, s, i, j);
    case Escape(c) => EscapeLeaf(fold, alnum, c, s, i, j);
    case Hex(hi, lo) =>
      HexLeaf(fold, hi, lo, s, i, j);
      LiteralLeaf(fold, ReadHex(hi, lo).value, s, i, j);
    case Dot => OneLeaf(fold, s, i, j);
    case Lit(c) => LiteralLeaf(fold, c, s, i, j);
  }

  // ------------------------------------------------------- nothing is missed

  /** Every match of the source, from i to j, is matched by some alternative. */
  lemma {:induction false} Complete(fold: char -> char, alnum: char -> bool, r: Rx, s: string, i: nat, j: nat)
    requires KnowsAscii(alnum) && PlainlyRead(r) && Expand(alnum, r).Some?
    requires i <= |s| && j in Ends(fold, r, s, i)
    ensures i <= j <= |s| && SomeMatches(fold, Expand(alnum, r).value, s[i..j])
    decreases r, 1
  {
    EndsRange(Ends(fold, r, s, i), i, |s|, j);
    match r
    case Seq(h, tl) => CompleteSeq(fold, alnum, h, tl, s, i, j);
    case Or(l, rt) =>
      SomeMatchesAppend(fold, Expand(alnum, l).value, Expand(alnum, rt).value, s[i..j]);
      if j in Ends(fold, l, s, i) {
        Complete(fold, alnum, l, s, i, j);
      } else {
        Complete(fold, alnum, rt, s, i, j);
      }
    case Quant(a, op, m) => CompleteQuant(fold, alnum, r, s, i, j);
    case Group(_, b) =>
      Complete(fold, alnum, b, s, i, j);
      if IsLadder(Expand(alnum, b).value) { LadderMatches(fold, Expand(alnum, b).value, s[i..j]); }
    case Start =>
    case End =>
    case _ => Leaf(fold, alnum, r, s, i, j);
  }

  lemma {:induction false} CompleteSeq(fold: char -> char, alnum: char -> bool, h: Rx, tl: Rx, s: string, i: nat, j: nat)
    requires KnowsAscii(alnum) && PlainlyRead(h) && PlainlyRead(tl)
    requires Expand(alnum, h).Some? && Expand(alnum, tl).Some?
    requires i <= j <= |s| && j in Ends(fold, Seq(h, tl), s, i)
    ensures SomeMatches(fold, Cross(Expand(alnum, h).value, Expand(alnum, tl).value), s[i..j])
    decreases Seq(h, tl), 0
  {
    hide Ends, Expand, PlainlyRead, SomeMatches, Cross;
    var t := s[i..j];
    SeqEnds(fold, h, tl, s, i, j);
    var k :| k in Ends(fold, h, s, i) && i <= k <= |s| && j in Ends(fold, tl, s, k);
    Complete(fold, alnum, h, s, i, k);
    Complete(fold, alnum, tl, s, k, j);
    assert t[..k - i] == s[i..k] && t[k - i..] == s[k..j];
    CrossJoin(fold, Expand(alnum, h).value, Expand(alnum, tl).value, t, k - i);
  }

  /** A `+` leaves room after its first pass. */
  lemma PlusPasses(fold: char -> char, r: Rx, s: string, i: nat, j: nat) returns (k: nat)
    requires r.Quant? && r.op == '+' && i <= |s| && j in Ends(fold, r, s, i)
    ensures k in Ends(fold, r.atom, s, i) && i <= k <= j <= |s|
  {
    var from := Ends(fold, r.atom, s, i);
    var lazy := r.marker == "?";
    PlusAllFrom(fold, r.atom, s, i, from, lazy, j);
    var m :| 0 <= m < |from| && j in StarEnds(fold, r.atom, s, from[m], lazy);
    EndsRange(StarEnds(fold, r.atom, s, from[m], lazy), from[m], |s|, j);
    k := from[m];
  }

  lemma ThenAny(fold: char -> char, e: seq<Parts>, t: string, k: nat)
    requires k <= |t| && SomeMatches(fold, e, t[..k])
    ensures SomeMatches(fold, AppendAny(e), t)
  {
    var m :| 0 <= m < |e| && PartsMatch(fold, e[m], None, t[..k]);
    AnyParts(fold, t[k..]);
    PartsJoin(fold, e[m], [PartAny], None, t, k);
    assert AppendAny(e)[m] == e[m] + [PartAny];
  }

  lemma {:induction false} CompleteQuant(fold: char -> char, alnum: char -> bool, r: Rx, s: string, i: nat, j: nat)
    requires r.Quant?
    requires KnowsAscii(alnum) && PlainlyRead(r) && Expand(alnum, r).Some?
    requires i <= j <= |s| && j in Ends(fold, r, s, i)
    ensures SomeMatches(fold, Expand(alnum, r).value, s[i..j])
    decreases r, 0
  {
    hide Ends, SomeMatches;
    if r.op == '+' {
      var k := PlusPasses(fold, r, s, i, j);
      Complete(fold, alnum, r.atom, s, i, k);
      assert s[i..j][..k - i] == s[i..k];
      ThenAny(fold, Expand(alnum, r.atom).value, s[i..j], k - i);
    } else {
      SomeMatchesOne(fold, [PartAny], s[i..j]);
      AnyParts(fold, s[i..j]);
    }
  }

  // ---------------------------------------------------- nothing is added

  predicate Exactly(alnum: char -> bool, r: Rx) {
    && PlainlyRead(r) && NoPossessive(r) && NoOptionalDot(alnum, r)
    && Expand(alnum, r).Some? && !Lossy(alnum, r)
  }

  /** Where nothing was generalized, every match of an alternative, each ladder
      free to use any rung, is a match of the source. */
  lemma {:induction false} Sound(fold: char -> char, alnum: char -> bool, r: Rx, s: string, i: nat, j: nat)
    requires KnowsAscii(alnum) && Exactly(alnum, r)
    requires i <= j <= |s| && SomeMatches(fold, Expand(alnum, r).value, s[i..j])
    ensures j in Ends(fold, r, s, i)
    decreases r, 1
  {
    match r
    case Seq(h, tl) => SoundSeq(fold, alnum, h, tl, s, i, j);
    case Or(l, rt) =>
      SomeMatchesAppend(fold, Expand(alnum, l).value, Expand(alnum, rt).value, s[i..j]);
      if SomeMatches(fold, Expand(alnum, l).value, s[i..j]) {
        Sound(fold, alnum, l, s, i, j);
      } else {
        Sound(fold, alnum, rt, s, i, j);
      }
    case Quant(a, op, m) => SoundQuant(fold, alnum, r, s, i, j);
    case Group(_, b) =>
      if IsLadder(Expand(alnum, b).value) { LadderMatches(fold, Expand(alnum, b).value, s[i..j]); }
      Sound(fold, alnum, b, s, i, j);
    case Start =>
    case End =>
    case _ => Leaf(fold, alnum, r, s, i, j);
  }

  lemma {:induction false} SoundSeq(fold: char -> char, alnum: char -> bool, h: Rx, tl: Rx, s: string, i: nat, j: nat)
    requires KnowsAscii(alnum) && Exactly(alnum, h) && Exactly(alnum, tl)
    requires i <= j <= |s|
    requires SomeMatches(fold, Cross(Expand(alnum, h).value, Expand(alnum, tl).value), s[i..j])
    ensures j in Ends(fold, Seq(h, tl), s, i)
    decreases Seq(h, tl), 0
  {
    hide Ends, Expand, PlainlyRead, NoPossessive, NoOptionalDot, Lossy, SomeMatches, Cross;
    var t := s[i..j];
    var k := CrossSplit(fold, Expand(alnum, h).value, Expand(alnum, tl).value, t);
    assert t[..k] == s[i..i + k] && t[k..] == s[i + k..j];
    Sound(fold, alnum, h, s, i, i + k);
    Sound(fold, alnum, tl, s, i + k, j);
    SeqEnds(fold, h, tl, s, i, j);
  }

  lemma QuantEnds(fold: char -> char, r: Rx, s: string, i: nat)
    requires r.Quant? && r.marker != "+" && (r.op == '*' || r.op == '+') && i <= |s|
    ensures Ends(fold, r, s, i) ==
            if r.op == '+' then PlusAll(fold, r.atom, s, i, Ends(fold, r.atom, s, i), r.marker == "?")
            else StarEnds(fold, r.atom, s, i, r.marker == "?")
  {}

  /** Repeating an atom that takes any character reaches everything it should. */
  lemma RepeatsAny(fold: char -> char, r: Rx, s: string, i: nat, j: nat)
    requires r.Quant? && r.marker != "+" && i <= j <= |s|
    requires r.op == '*' || (r.op == '+' && i < j)
    requires forall k :: 0 <= k < |s| ==> k + 1 in Ends(fold, r.atom, s, k)
    ensures j in Ends(fold, r, s, i)
  {
    hide Ends, StarEnds, PlusAll;
    QuantEnds(fold, r, s, i);
    var lazy := r.marker == "?";
    var from := Ends(fold, r.atom, s, i);
    if r.op == '+' {
      StarOfAnyChar(fold, r.atom, s, i + 1, j, lazy);
      var m :| 0 <= m < |from| && from[m] == i + 1;
      PlusAllFrom(fold, r.atom, s, i, from, lazy, j);
    } else {
      StarOfAnyChar(fold, r.atom, s, i, j, lazy);
    }
  }

  lemma OneThenAny(fold: char -> char, t: string)
    requires SomeMatches(fold, AppendAny([[PartOne]]), t)
    ensures t != ""
  {
    assert AppendAny([[PartOne]]) == [[PartOne] + [PartAny]];
    SomeMatchesOne(fold, [PartOne] + [PartAny], t);
    var k := PartsSplit(fold, [PartOne], [PartAny], None, t);
    OneParts(fold, t[..k]);
  }

  lemma {:induction false} SoundQuant(fold: char -> char, alnum: char -> bool, r: Rx, s: string, i: nat, j: nat)
    requires r.Quant? && KnowsAscii(alnum) && Exactly(alnum, r)
    requires i <= j <= |s| && SomeMatches(fold, Expand(alnum, r).value, s[i..j])
    ensures j in Ends(fold, r, s, i)
    decreases r, 0
  {
    var e := Expand(alnum, r.atom).value;
    assert e[0] == [PartOne] && e == [[PartOne]];
    forall k | 0 <= k < |s| ensures k + 1 in Ends(fold, r.atom, s, k)
    {
      OneLeaf(fold, s, k, k + 1);
      Sound(fold, alnum, r.atom, s, k, k + 1);
    }
    if r.op == '+' { OneThenAny(fold, s[i..j]); }
    RepeatsAny(fold, r, s, i, j);
  }
}
