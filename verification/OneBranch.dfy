/** Texts of one branch, made of characters however they are spelled and of dots
    under any quantifier and marker: exactly when is the label right? */
module OneBranch {
  import opened Options
  import opened RegexSyntax
  import opened RegexSemantics
  import opened Expansion
  import opened Wildcards
  import opened TranslationMeaning
  import opened Fidelity
  import opened TranslationTheorems
  import opened EmittedMeaning
  import OptionalDots

  datatype Mark = Greedy | Lazy | Possessive

  datatype Item = Atom(rx: Rx) | Any | Star(mark: Mark) | Plus(mark: Mark) | Maybe(mark: Mark)

  function Marker(m: Mark): string {
    match m case Greedy => "" case Lazy => "?" case Possessive => "+"
  }

  function Tree(t: Item): Rx {
    match t
    case Atom(rx) => rx
    case Any => Dot
    case Star(m) => Quant(Dot, '*', Marker(m))
    case Plus(m) => Quant(Dot, '+', Marker(m))
    case Maybe(m) => Quant(Dot, '?', Marker(m))
  }

  function Branch(items: seq<Item>): Rx {
    if items == [] then Eps else Seq(Tree(items[0]), Branch(items[1..]))
  }

  /** The atom spells one character: itself, an escape, or two hexadecimal places. */
  predicate Spells(rx: Rx) {
    match rx
    case Lit(_) => true
    case Escape(c) => !IsShorthand(c) && c != 'b' && c != 'B'
    case Hex(hi, lo) => ReadHex(hi, lo).Some?
    case _ => false
  }

  function ReadChar(rx: Rx): char
    requires Spells(rx)
  {
    match rx
    case Lit(c) => c
    case Escape(c) => EscapedChar(c)
    case Hex(hi, lo) => ReadHex(hi, lo).value
  }

  /** Two hexadecimal places are read where the second is a digit and the first a digit
      or a sign; a minus gives nothing but the zero or the replacement character. */
  lemma HexExactly(hi: char, lo: char)
    ensures Spells(Hex(hi, lo)) <==> HexDigitValue(lo) >= 0 && (hi == '+' || hi == '-' || HexDigitValue(hi) >= 0)
    ensures Spells(Hex(hi, lo)) ==>
              var c := ReadChar(Hex(hi, lo));
              if hi == '-' then c == (if lo == '0' then 0 as char else REPLACEMENT)
              else c as int == HexDigitValue(lo) + if hi == '+' then 0 else 16 * HexDigitValue(hi)
  {}

  predicate AllSpelled(items: seq<Item>) { forall k :: 0 <= k < |items| && items[k].Atom? ==> Spells(items[k].rx) }

  /** A hexadecimal escape with a sign in it. */
  predicate Signed(t: Item) { t.Atom? && t.rx.Hex? && !ProperHex(t.rx.hi, t.rx.lo) }

  predicate NoSigned(items: seq<Item>) { forall k :: 0 <= k < |items| ==> !Signed(items[k]) }

  /** The escape `\v`, which is a set and is read as one vertical tab. */
  predicate Vertical(t: Item) { t == Atom(Escape('v')) }

  predicate NoVertical(items: seq<Item>) { forall k :: 0 <= k < |items| ==> !Vertical(items[k]) }

  predicate IsPossessive(t: Item) { (t.Star? || t.Plus? || t.Maybe?) && t.mark == Possessive }

  predicate Nullable(t: Item) { t.Star? || t.Maybe? }

  predicate AllNullable(items: seq<Item>) { forall k :: 0 <= k < |items| ==> Nullable(items[k]) }

  /** Behind a possessive quantifier nothing must be matched any more. */
  predicate PossessivesLast(items: seq<Item>) {
    items == [] || ((IsPossessive(items[0]) ==> AllNullable(items[1..])) && PossessivesLast(items[1..]))
  }

  predicate Harmless(items: seq<Item>) { NoSigned(items) && NoVertical(items) && PossessivesLast(items) }

  /** The item without spelling and possessive marker. */
  function Plain(t: Item): OptionalDots.Term
    requires t.Atom? ==> Spells(t.rx)
  {
    match t
    case Atom(rx) => OptionalDots.Char(ReadChar(rx))
    case Any => OptionalDots.One
    case Star(m) => OptionalDots.Star(m == Lazy)
    case Plus(m) => OptionalDots.Plus(m == Lazy)
    case Maybe(m) => OptionalDots.Maybe(m == Lazy)
  }

  function PlainAll(items: seq<Item>): seq<OptionalDots.Term>
    requires AllSpelled(items)
  {
    if items == [] then [] else [Plain(items[0])] + PlainAll(items[1..])
  }

  lemma PlainParts(items: seq<Item>)
    requires items != [] && AllSpelled(items)
    ensures AllSpelled(items[1..]) && PlainAll(items)[0] == Plain(items[0]) && PlainAll(items)[1..] == PlainAll(items[1..])
    ensures OptionalDots.Branch(PlainAll(items)) == Seq(OptionalDots.Tree(Plain(items[0])), OptionalDots.Branch(PlainAll(items[1..])))
  {
    assert PlainAll(items) == [Plain(items[0])] + PlainAll(items[1..]);
  }

  /** Spelling and markers do not matter to the translator. */
  lemma {:induction false} ReadAlike(alnum: char -> bool, items: seq<Item>)
    requires AllSpelled(items)
    ensures AsRead(alnum, Branch(items)) == AsRead(alnum, OptionalDots.Branch(PlainAll(items)))
  {
    if items != [] {
      PlainParts(items);
      ReadAlike(alnum, items[1..]);
      assert AsRead(alnum, Tree(items[0])) == AsRead(alnum, OptionalDots.Tree(Plain(items[0])));
    }
  }

  // -------------------------------------------------------------- what one item takes

  lemma AtomEnds(fold: char -> char, rx: Rx, s: string, i: nat, j: nat)
    requires Spells(rx) && i <= |s|
    ensures !Signed(Atom(rx)) && !Vertical(Atom(rx)) ==> (j in Ends(fold, rx, s, i) <==> j in Ends(fold, Lit(ReadChar(rx)), s, i))
    ensures Signed(Atom(rx)) && j in Ends(fold, rx, s, i) ==> i + 2 <= j
    ensures Vertical(Atom(rx)) ==> (j in Ends(fold, rx, s, i) <==> i + 1 == j <= |s| && IsVerticalChar(s[i]))
  {
    OptionalDots.CharEnds(fold, ReadChar(rx), s, i, j);
    if rx.Hex? {
      if ProperHex(rx.hi, rx.lo) {
        HexLeaf(fold, rx.hi, rx.lo, s, i, j);
      } else if rx.hi == '+' {
        if j in Ends(fold, rx, s, i) { NulRunLong(fold, rx.lo, s, i, j); }
      } else {
        assert |HexText(rx.hi, rx.lo)| == 3;
      }
    }
  }

  /** An item takes nothing that its plain form does not. */
  lemma ItemNarrower(fold: char -> char, t: Item, s: string, i: nat, j: nat)
    requires i <= |s| && (t.Atom? ==> Spells(t.rx)) && !Signed(t) && !Vertical(t) && j in Ends(fold, Tree(t), s, i)
    ensures j in Ends(fold, OptionalDots.Tree(Plain(t)), s, i)
  {
    hide Ends;
    if t.Atom? {
      AtomEnds(fold, t.rx, s, i, j);
    } else {
      OptionalDots.TermEnds(fold, Plain(t), s, i, j);
      if IsPossessive(t) {
        PossessiveRun(fold, s, i);
        PossessiveOption(fold, s, i);
      } else {
        assert Tree(t) == OptionalDots.Tree(Plain(t));
      }
    }
  }

  lemma SamePlain(fold: char -> char, t: Item, s: string, i: nat, j: nat)
    requires i <= |s| && (t.Atom? ==> Spells(t.rx)) && !Signed(t) && !Vertical(t) && !IsPossessive(t)
    ensures j in Ends(fold, Tree(t), s, i) <==> j in Ends(fold, OptionalDots.Tree(Plain(t)), s, i)
  {
    hide Ends;
    if t.Atom? { AtomEnds(fold, t.rx, s, i, j); } else { assert Tree(t) == OptionalDots.Tree(Plain(t)); }
  }

  lemma {:induction false} BranchNarrower(fold: char -> char, items: seq<Item>, s: string, i: nat, j: nat)
    requires i <= |s| && AllSpelled(items) && NoSigned(items) && NoVertical(items) && j in Ends(fold, Branch(items), s, i)
    ensures j in Ends(fold, OptionalDots.Branch(PlainAll(items)), s, i)
    decreases |items|
  {
    hide Ends;
    if items != [] {
      PlainParts(items);
      SeqEnds(fold, Tree(items[0]), Branch(items[1..]), s, i, j);
      var m :| m in Ends(fold, Tree(items[0]), s, i) && i <= m <= |s| && j in Ends(fold, Branch(items[1..]), s, m);
      ItemNarrower(fold, items[0], s, i, m);
      BranchNarrower(fold, items[1..], s, m, j);
      SeqEnds(fold, OptionalDots.Tree(Plain(items[0])), OptionalDots.Branch(PlainAll(items[1..])), s, i, j);
    }
  }

  // --------------------------------------------------- possessives where they do no harm

  /** Somewhere a nullable item ends, and at the end of the string right there. */
  lemma NullableItem(fold: char -> char, t: Item, s: string, i: nat) returns (j: nat)
    requires i <= |s| && Nullable(t)
    ensures i <= j <= |s| && j in Ends(fold, Tree(t), s, i)
  {
    hide Ends;
    if IsPossessive(t) {
      PossessiveRun(fold, s, i);
      PossessiveOption(fold, s, i);
      j := if t.Star? then |s| else if i < |s| then i + 1 else i;
    } else {
      j := i;
      OptionalDots.TermEnds(fold, Plain(t), s, i, i);
      SamePlain(fold, t, s, i, i);
    }
  }

  lemma {:induction false} NullableBranch(fold: char -> char, items: seq<Item>, s: string, i: nat) returns (j: nat)
    requires i <= |s| && AllNullable(items)
    ensures i <= j <= |s| && j in Ends(fold, Branch(items), s, i)
    decreases |items|
  {
    if items == [] {
      j := i;
    } else {
      hide Ends;
      var m := NullableItem(fold, items[0], s, i);
      j := NullableBranch(fold, items[1..], s, m);
      SeqEnds(fold, Tree(items[0]), Branch(items[1..]), s, i, j);
    }
  }

  /** Nullable items that reach the end of the string reach it from nearer by. */
  lemma {:induction false} Closer(fold: char -> char, items: seq<Item>, s: string, i: nat)
    requires i < |s| && AllNullable(items) && AllSpelled(items)
    requires |s| in Ends(fold, OptionalDots.Branch(PlainAll(items)), s, i)
    ensures |s| in Ends(fold, OptionalDots.Branch(PlainAll(items)), s, i + 1)
    decreases |items|
  {
    if items == [] {
      EmptyEnds(fold, items, s, i);
    } else {
      PlainParts(items);
      CloserTail(items);
      var rest := OptionalDots.Branch(PlainAll(items[1..]));
      if |s| in Ends(fold, rest, s, i) { Closer(fold, items[1..], s, i); }
      hide *;
      OneCloser(fold, items[0], rest, s, i);
    }
  }

  lemma OneCloser(fold: char -> char, t: Item, rest: Rx, s: string, i: nat)
    requires i < |s| && Nullable(t) && |s| in Ends(fold, Seq(OptionalDots.Tree(Plain(t)), rest), s, i)
    requires |s| in Ends(fold, rest, s, i) ==> |s| in Ends(fold, rest, s, i + 1)
    ensures |s| in Ends(fold, Seq(OptionalDots.Tree(Plain(t)), rest), s, i + 1)
  {
    hide Ends, OptionalDots.Tree;
    var tree := OptionalDots.Tree(Plain(t));
    SeqEnds(fold, tree, rest, s, i, |s|);
    var m: nat :| m in Ends(fold, tree, s, i) && i <= m <= |s| && |s| in Ends(fold, rest, s, m);
    NullableCloser(fold, t, s, i, m);
    var k: nat := if m == i then i + 1 else m;
    assert k in Ends(fold, tree, s, i + 1) && |s| in Ends(fold, rest, s, k);
    SeqEnds(fold, tree, rest, s, i + 1, |s|);
  }

  lemma EmptyEnds(fold: char -> char, items: seq<Item>, s: string, i: nat)
    requires i < |s| && AllSpelled(items) && items == []
    ensures |s| !in Ends(fold, OptionalDots.Branch(PlainAll(items)), s, i)
  {}

  lemma CloserTail(items: seq<Item>)
    requires items != [] && AllNullable(items)
    ensures Nullable(items[0]) && AllNullable(items[1..])
  {
    forall k | 0 <= k < |items| - 1 ensures Nullable(items[1..][k]) { assert items[1..][k] == items[k + 1]; }
  }

  lemma NullableCloser(fold: char -> char, t: Item, s: string, i: nat, m: nat)
    requires Nullable(t) && i < |s| && i <= m <= |s| && m in Ends(fold, OptionalDots.Tree(Plain(t)), s, i)
    ensures (if m == i then i + 1 else m) in Ends(fold, OptionalDots.Tree(Plain(t)), s, i + 1)
  {
    hide Ends;
    OptionalDots.TermEnds(fold, Plain(t), s, i, m);
    OptionalDots.TermEnds(fold, Plain(t), s, i + 1, if m == i then i + 1 else m);
  }

  /** A possessive item before nullable ones gets to the end if its plain form does. */
  lemma PossessiveReaches(fold: char -> char, items: seq<Item>, s: string, i: nat, m: nat) returns (k: nat)
    requires i <= m <= |s| && items != [] && IsPossessive(items[0]) && AllNullable(items[1..]) && AllSpelled(items)
    requires m in Ends(fold, OptionalDots.Tree(Plain(items[0])), s, i)
    ensures i <= k <= |s| && k in Ends(fold, Tree(items[0]), s, i)
    ensures |s| in Ends(fold, OptionalDots.Branch(PlainAll(items[1..])), s, m) ==>
              k == |s| || |s| in Ends(fold, OptionalDots.Branch(PlainAll(items[1..])), s, k)
  {
    hide Ends;
    OptionalDots.TermEnds(fold, Plain(items[0]), s, i, m);
    PossessiveRun(fold, s, i);
    PossessiveOption(fold, s, i);
    k := if items[0].Maybe? then (if i < |s| then i + 1 else i) else |s|;
    if items[0].Maybe? && m == i < |s| && |s| in Ends(fold, OptionalDots.Branch(PlainAll(items[1..])), s, m) {
      Closer(fold, items[1..], s, i);
    }
  }

  lemma {:induction false} AtTheEnd(fold: char -> char, items: seq<Item>, s: string)
    requires AllNullable(items)
    ensures |s| in Ends(fold, Branch(items), s, |s|)
  {
    var j := NullableBranch(fold, items, s, |s|);
  }

  /** Where possessives come last, the branch reaches the end of the string wherever
      its plain form does. */
  lemma {:induction false} ReachesEnd(fold: char -> char, items: seq<Item>, s: string, i: nat)
    requires i <= |s| && AllSpelled(items) && Harmless(items)
    requires |s| in Ends(fold, OptionalDots.Branch(PlainAll(items)), s, i)
    ensures |s| in Ends(fold, Branch(items), s, i)
    decreases |items|
  {
    if items != [] {
      hide Ends;
      PlainParts(items);
      var tree, rest := OptionalDots.Tree(Plain(items[0])), OptionalDots.Branch(PlainAll(items[1..]));
      SeqEnds(fold, tree, rest, s, i, |s|);
      var m: nat :| m in Ends(fold, tree, s, i) && i <= m <= |s| && |s| in Ends(fold, rest, s, m);
      if IsPossessive(items[0]) {
        var k := PossessiveReaches(fold, items, s, i, m);
        if k == |s| { AtTheEnd(fold, items[1..], s); } else { ReachesEnd(fold, items[1..], s, k); }
      } else {
        SamePlain(fold, items[0], s, i, m);
        ReachesEnd(fold, items[1..], s, m);
      }
      SeqEnds(fold, Tree(items[0]), Branch(items[1..]), s, i, |s|);
    }
  }

  /** And it ends somewhere wherever its plain form does. */
  lemma {:induction false} EndsSomewhere(fold: char -> char, items: seq<Item>, s: string, i: nat, j: nat) returns (k: nat)
    requires i <= |s| && AllSpelled(items) && Harmless(items)
    requires j in Ends(fold, OptionalDots.Branch(PlainAll(items)), s, i)
    ensures i <= k <= |s| && k in Ends(fold, Branch(items), s, i)
    decreases |items|
  {
    if items == [] {
      k := i;
    } else {
      hide Ends;
      PlainParts(items);
      var tree, rest := OptionalDots.Tree(Plain(items[0])), OptionalDots.Branch(PlainAll(items[1..]));
      SeqEnds(fold, tree, rest, s, i, j);
      var m: nat :| m in Ends(fold, tree, s, i) && i <= m <= |s| && j in Ends(fold, rest, s, m);
      if IsPossessive(items[0]) {
        m := PossessiveReaches(fold, items, s, i, m);
        k := NullableBranch(fold, items[1..], s, m);
      } else {
        SamePlain(fold, items[0], s, i, m);
        k := EndsSomewhere(fold, items[1..], s, m, j);
      }
      SeqEnds(fold, Tree(items[0]), Branch(items[1..]), s, i, k);
    }
  }

  /** Spelling and possessive markers change nothing about a harmless branch. */
  lemma HarmlessSame(fold: char -> char, items: seq<Item>, start: bool, end: bool, s: string)
    requires AllSpelled(items) && Harmless(items)
    ensures BodyFound(fold, start, Branch(items), end, s) <==> BodyFound(fold, start, OptionalDots.Branch(PlainAll(items)), end, s)
  {
    hide Ends;
    if BodyFound(fold, start, Branch(items), end, s) {
      var i: nat, j: nat :| Window(s, start, end, i, j) && j in Ends(fold, Branch(items), s, i);
      BranchNarrower(fold, items, s, i, j);
    }
    if BodyFound(fold, start, OptionalDots.Branch(PlainAll(items)), end, s) {
      var i: nat, j: nat :| Window(s, start, end, i, j) && j in Ends(fold, OptionalDots.Branch(PlainAll(items)), s, i);
      var k: nat;
      if end { ReachesEnd(fold, items, s, i); k := |s|; } else { k := EndsSomewhere(fold, items, s, i, j); }
      assert Window(s, start, end, i, k) && k in Ends(fold, Branch(items), s, i);
    }
  }

  // --------------------------------------------------------- the shortest text as read

  function Least(t: Item): nat { if t.Atom? || t.Any? || t.Plus? then 1 else 0 }

  /** The shortest string in which the branch as read is found. */
  function Shortest(items: seq<Item>): (w: string)
    requires AllSpelled(items)
  {
    if items == [] then ""
    else
      var c := if items[0].Atom? then ReadChar(items[0].rx) else ' ';
      (if Least(items[0]) == 1 then [c] else "") + Shortest(items[1..])
  }

  function LeastAll(items: seq<Item>): nat { if items == [] then 0 else Least(items[0]) + LeastAll(items[1..]) }

  lemma {:induction false} ShortestLength(items: seq<Item>)
    requires AllSpelled(items)
    ensures |Shortest(items)| == LeastAll(items)
  {
    if items != [] { ShortestLength(items[1..]); }
  }

  lemma {:induction false} NotNullableTakes(items: seq<Item>)
    requires !AllNullable(items)
    ensures LeastAll(items) >= 1
  {
    if Nullable(items[0]) {
      assert !AllNullable(items[1..]) by {
        var k :| 0 <= k < |items| && !Nullable(items[k]);
        assert items[1..][k - 1] == items[k];
      }
      NotNullableTakes(items[1..]);
    }
  }

  lemma ReadTakesLeast(fold: char -> char, alnum: char -> bool, t: Item, s: string, i: nat)
    requires (t.Atom? ==> Spells(t.rx)) && i + Least(t) <= |s| && (t.Atom? ==> s[i] == ReadChar(t.rx))
    ensures i + Least(t) in Ends(fold, AsRead(alnum, Tree(t)), s, i)
    ensures i + Least(t) in Ends(fold, OptionalDots.Tree(Plain(t)), s, i)
  {
    hide Ends;
    var term := Plain(t);
    assert AsRead(alnum, Tree(t)) == AsRead(alnum, OptionalDots.Tree(term));
    if t.Atom? {
      OptionalDots.CharEnds(fold, ReadChar(t.rx), s, i, i + 1);
    } else {
      OptionalDots.AsReadEnds(fold, alnum, term, s, i, i + Least(t));
      OptionalDots.TermEnds(fold, term, s, i, i + Least(t));
    }
  }

  lemma ShortestStep(items: seq<Item>, s: string, i: nat)
    requires AllSpelled(items) && items != [] && i <= |s| && s[i..] == Shortest(items)
    ensures AllSpelled(items[1..]) && i + Least(items[0]) <= |s| && s[i + Least(items[0])..] == Shortest(items[1..])
    ensures items[0].Atom? ==> s[i] == ReadChar(items[0].rx)
  {
    var n := Least(items[0]);
    assert s[i..][n..] == Shortest(items[1..]);
    assert s[i + n..] == s[i..][n..];
    if items[0].Atom? { assert s[i] == s[i..][0]; }
  }

  lemma {:induction false} ShortestRead(fold: char -> char, alnum: char -> bool, items: seq<Item>, s: string, i: nat)
    requires AllSpelled(items) && i <= |s| && s[i..] == Shortest(items)
    ensures |s| in Ends(fold, AsRead(alnum, Branch(items)), s, i)
    decreases |items|
  {
    if items == [] {
      assert |s[i..]| == 0;
    } else {
      hide Ends, Shortest, Spells;
      ShortestStep(items, s, i);
      ReadTakesLeast(fold, alnum, items[0], s, i);
      ShortestRead(fold, alnum, items[1..], s, i + Least(items[0]));
      assert AsRead(alnum, Branch(items)) == Seq(AsRead(alnum, Tree(items[0])), AsRead(alnum, Branch(items[1..])));
      SeqEnds(fold, AsRead(alnum, Tree(items[0])), AsRead(alnum, Branch(items[1..])), s, i, |s|);
    }
  }

  lemma {:induction false} ShortestPlain(fold: char -> char, alnum: char -> bool, items: seq<Item>, s: string, i: nat)
    requires AllSpelled(items) && i <= |s| && s[i..] == Shortest(items)
    ensures |s| in Ends(fold, OptionalDots.Branch(PlainAll(items)), s, i)
    decreases |items|
  {
    if items == [] {
      assert |s[i..]| == 0;
    } else {
      hide Ends, Shortest, Spells;
      ShortestStep(items, s, i);
      ReadTakesLeast(fold, alnum, items[0], s, i);
      ShortestPlain(fold, alnum, items[1..], s, i + Least(items[0]));
      PlainParts(items);
      SeqEnds(fold, OptionalDots.Tree(Plain(items[0])), OptionalDots.Branch(PlainAll(items[1..])), s, i, |s|);
    }
  }

  function SourceLeast(t: Item): nat { if Signed(t) then 2 else Least(t) }

  function SourceLeastAll(items: seq<Item>): nat { if items == [] then 0 else SourceLeast(items[0]) + SourceLeastAll(items[1..]) }

  lemma ItemTakes(fold: char -> char, t: Item, s: string, i: nat, j: nat)
    requires i <= |s| && (t.Atom? ==> Spells(t.rx)) && j in Ends(fold, Tree(t), s, i)
    ensures i + SourceLeast(t) <= j <= |s|
    ensures IsPossessive(t) && i < |s| ==> j == if t.Maybe? then i + 1 else |s|
  {
    EndsRange(Ends(fold, Tree(t), s, i), i, |s|, j);
    hide Ends;
    if Signed(t) || Vertical(t) {
      AtomEnds(fold, t.rx, s, i, j);
    } else {
      ItemNarrower(fold, t, s, i, j);
      if t.Atom? { OptionalDots.CharEnds(fold, ReadChar(t.rx), s, i, j); } else { OptionalDots.TermEnds(fold, Plain(t), s, i, j); }
      PossessiveRun(fold, s, i);
      PossessiveOption(fold, s, i);
    }
  }

  /** The source takes at least so much. */
  lemma {:induction false} BranchTakes(fold: char -> char, items: seq<Item>, s: string, i: nat, j: nat)
    requires i <= |s| && AllSpelled(items) && j in Ends(fold, Branch(items), s, i)
    ensures i + SourceLeastAll(items) <= j <= |s|
    decreases |items|
  {
    if items != [] {
      hide Ends;
      SeqEnds(fold, Tree(items[0]), Branch(items[1..]), s, i, j);
      var m :| m in Ends(fold, Tree(items[0]), s, i) && i <= m <= |s| && j in Ends(fold, Branch(items[1..]), s, m);
      ItemTakes(fold, items[0], s, i, m);
      BranchTakes(fold, items[1..], s, m, j);
    }
  }

  lemma {:induction false} SignedTakesMore(items: seq<Item>)
    ensures SourceLeastAll(items) >= LeastAll(items)
    ensures NoSigned(items) <==> SourceLeastAll(items) == LeastAll(items)
  {
    if items != [] {
      SignedTakesMore(items[1..]);
      if NoSigned(items[1..]) && !Signed(items[0]) {
        forall k | 0 <= k < |items| ensures !Signed(items[k]) { if k > 0 { assert items[k] == items[1..][k - 1]; } }
      }
      if NoSigned(items) {
        forall k | 0 <= k < |items[1..]| ensures !Signed(items[1..][k]) { assert items[1..][k] == items[k + 1]; }
      }
    }
  }

  /** In a string with nothing to spare, a possessive item takes what a later one
      needs. */
  lemma {:induction false} NothingToSpare(fold: char -> char, items: seq<Item>, s: string, i: nat, j: nat)
    requires i <= |s| && AllSpelled(items) && !PossessivesLast(items) && |s| == i + LeastAll(items)
    ensures j !in Ends(fold, Branch(items), s, i)
    decreases |items|
  {
    hide Ends;
    if j in Ends(fold, Branch(items), s, i) {
      SeqEnds(fold, Tree(items[0]), Branch(items[1..]), s, i, j);
      var m :| m in Ends(fold, Tree(items[0]), s, i) && i <= m <= |s| && j in Ends(fold, Branch(items[1..]), s, m);
      ItemTakes(fold, items[0], s, i, m);
      BranchTakes(fold, items[1..], s, m, j);
      SignedTakesMore(items[1..]);
      if IsPossessive(items[0]) && !AllNullable(items[1..]) {
        NotNullableTakes(items[1..]);
      } else {
        NothingToSpare(fold, items[1..], s, m, j);
      }
    }
  }

  /** A signed escape, or a possessive before something that must be matched: the
      branch does not find the shortest string that it is read to find. */
  lemma HarmfulDiffers(fold: char -> char, alnum: char -> bool, items: seq<Item>, start: bool, end: bool)
    requires AllSpelled(items) && !(NoSigned(items) && PossessivesLast(items))
    ensures var w := Shortest(items);
            BodyFound(fold, start, AsRead(alnum, Branch(items)), end, w) && !BodyFound(fold, start, Branch(items), end, w)
  {
    hide Ends;
    var w := Shortest(items);
    ShortestLength(items);
    assert w[0..] == w;
    ShortestRead(fold, alnum, items, w, 0);
    assert Window(w, start, end, 0, |w|);
    SignedTakesMore(items);
    forall i: nat, j: nat | Window(w, start, end, i, j) ensures j !in Ends(fold, Branch(items), w, i) {
      if j in Ends(fold, Branch(items), w, i) {
        BranchTakes(fold, items, w, i, j);
        NothingToSpare(fold, items, w, i, j);
      }
    }
  }

  // ----------------------------------------------------------------- vertical white space

  function FedItem(t: Item): Item { if Vertical(t) then Atom(Lit(LINE_FEED)) else t }

  /** The branch with a line feed for every `\v`. */
  function Fed(items: seq<Item>): seq<Item> { if items == [] then [] else [FedItem(items[0])] + Fed(items[1..]) }

  lemma {:induction false} FedIsHarmless(items: seq<Item>)
    ensures |Fed(items)| == |items| && forall k :: 0 <= k < |items| ==> Fed(items)[k] == FedItem(items[k])
    ensures AllNullable(Fed(items)) <==> AllNullable(items)
    ensures AllSpelled(items) ==> AllSpelled(Fed(items))
    ensures PossessivesLast(items) && NoSigned(items) ==> Harmless(Fed(items))
  {
    if items != [] {
      FedIsHarmless(items[1..]);
      assert Fed(items)[1..] == Fed(items[1..]);
      forall k | 0 <= k < |items| ensures Fed(items)[k] == FedItem(items[k]) {
        if k > 0 { assert items[1..][k - 1] == items[k]; }
      }
      forall k | 0 <= k < |items| ensures Nullable(Fed(items)[k]) <==> Nullable(items[k]) {}
      if NoSigned(items) {
        forall k | 0 <= k < |items| - 1 ensures !Signed(items[1..][k]) { assert items[1..][k] == items[k + 1]; }
      }
    }
  }

  /** What it finds with line feeds, the source finds. */
  lemma {:induction false} FedFound(fold: char -> char, items: seq<Item>, s: string, i: nat, j: nat)
    requires i <= |s| && j in Ends(fold, Branch(Fed(items)), s, i) && AllSpelled(items) && KeepsLineFeed(fold)
    ensures j in Ends(fold, Branch(items), s, i)
    decreases |items|
  {
    if items != [] {
      hide Ends;
      assert Fed(items)[1..] == Fed(items[1..]);
      var tree, fed := Tree(items[0]), Tree(FedItem(items[0]));
      SeqEnds(fold, fed, Branch(Fed(items[1..])), s, i, j);
      var m: nat :| m in Ends(fold, fed, s, i) && i <= m <= |s| && j in Ends(fold, Branch(Fed(items[1..])), s, m);
      FedFound(fold, items[1..], s, m, j);
      if Vertical(items[0]) {
        OptionalDots.CharEnds(fold, LINE_FEED, s, i, m);
        AtomEnds(fold, items[0].rx, s, i, m);
      }
      SeqEnds(fold, tree, Branch(items[1..]), s, i, j);
    }
  }

  lemma ReadTakes(fold: char -> char, alnum: char -> bool, t: Item, s: string, i: nat, j: nat)
    requires i <= |s| && (t.Atom? ==> Spells(t.rx)) && j in Ends(fold, AsRead(alnum, Tree(t)), s, i)
    ensures i + Least(t) <= j <= |s| && (t.Atom? ==> j == i + 1 && fold(ReadChar(t.rx)) == fold(s[i]))
  {
    hide Ends;
    var term := Plain(t);
    assert AsRead(alnum, Tree(t)) == AsRead(alnum, OptionalDots.Tree(term));
    if t.Atom? { OptionalDots.CharEnds(fold, ReadChar(t.rx), s, i, j); } else { OptionalDots.AsReadEnds(fold, alnum, term, s, i, j); }
  }

  lemma {:induction false} ReadTakesAll(fold: char -> char, alnum: char -> bool, items: seq<Item>, s: string, i: nat, j: nat)
    requires i <= |s| && AllSpelled(items) && j in Ends(fold, AsRead(alnum, Branch(items)), s, i)
    ensures i + LeastAll(items) <= j <= |s|
    decreases |items|
  {
    if items != [] {
      hide Ends;
      SeqEnds(fold, AsRead(alnum, Tree(items[0])), AsRead(alnum, Branch(items[1..])), s, i, j);
      var m :| m in Ends(fold, AsRead(alnum, Tree(items[0])), s, i) && i <= m <= |s| && j in Ends(fold, AsRead(alnum, Branch(items[1..])), s, m);
      ReadTakes(fold, alnum, items[0], s, i, m);
      ReadTakesAll(fold, alnum, items[1..], s, m, j);
    }
  }

  /** In a string with nothing to spare, the branch as read takes the least at its
      first item. */
  lemma ReadTakesJustLeast(fold: char -> char, alnum: char -> bool, items: seq<Item>, s: string, i: nat, j: nat) returns (m: nat)
    requires items != [] && AllSpelled(items) && |s| == i + LeastAll(items) && j in Ends(fold, AsRead(alnum, Branch(items)), s, i)
    ensures m == i + Least(items[0]) <= |s| && j in Ends(fold, AsRead(alnum, Branch(items[1..])), s, m)
    ensures items[0].Atom? ==> i < |s| && fold(ReadChar(items[0].rx)) == fold(s[i])
  {
    hide Ends;
    SeqEnds(fold, AsRead(alnum, Tree(items[0])), AsRead(alnum, Branch(items[1..])), s, i, j);
    m :| m in Ends(fold, AsRead(alnum, Tree(items[0])), s, i) && i <= m <= |s| && j in Ends(fold, AsRead(alnum, Branch(items[1..])), s, m);
    ReadTakes(fold, alnum, items[0], s, i, m);
    ReadTakesAll(fold, alnum, items[1..], s, m, j);
  }

  lemma FedStep(items: seq<Item>, s: string, i: nat)
    requires AllSpelled(items) && items != [] && AllSpelled(Fed(items)) && i <= |s| && s[i..] == Shortest(Fed(items))
    ensures |s| == i + LeastAll(items) && AllSpelled(Fed(items[1..]))
    ensures i + Least(items[0]) <= |s| && s[i + Least(items[0])..] == Shortest(Fed(items[1..]))
    ensures Vertical(items[0]) ==> s[i] == LINE_FEED
  {
    assert Fed(items)[0] == FedItem(items[0]) && Fed(items)[1..] == Fed(items[1..]);
    FedLeast(items);
    ShortestLength(Fed(items));
    ShortestStep(Fed(items), s, i);
  }

  /** As read, the branch misses the shortest string with a line feed for a `\v`. */
  lemma {:induction false} ReadMisses(fold: char -> char, alnum: char -> bool, items: seq<Item>, s: string, i: nat, j: nat)
    requires i <= |s| && AllSpelled(items) && AllSpelled(Fed(items)) && s[i..] == Shortest(Fed(items))
    requires !NoVertical(items) && KeepsLineFeed(fold)
    ensures j !in Ends(fold, AsRead(alnum, Branch(items)), s, i)
    decreases |items|
  {
    if j in Ends(fold, AsRead(alnum, Branch(items)), s, i) {
      hide Ends, Shortest, Fed, AsRead, Branch;
      FedStep(items, s, i);
      var m := ReadTakesJustLeast(fold, alnum, items, s, i, j);
      if !Vertical(items[0]) {
        var k :| 0 <= k < |items| && Vertical(items[k]);
        assert items[1..][k - 1] == items[k];
        ReadMisses(fold, alnum, items[1..], s, m, j);
      }
    }
  }

  lemma {:induction false} FedLeast(items: seq<Item>)
    ensures LeastAll(Fed(items)) == LeastAll(items)
  {
    if items != [] {
      FedLeast(items[1..]);
      assert Fed(items)[1..] == Fed(items[1..]);
    }
  }

  /** Otherwise, with a `\v`: the source finds a string with line feeds that the
      branch is not read to find. */
  lemma VerticalDiffers(fold: char -> char, alnum: char -> bool, items: seq<Item>, start: bool, end: bool)
    requires AllSpelled(items) && NoSigned(items) && PossessivesLast(items) && !NoVertical(items)
    requires KeepsLineFeed(fold)
    ensures AllSpelled(Fed(items))
    ensures var w := Shortest(Fed(items));
            !BodyFound(fold, start, AsRead(alnum, Branch(items)), end, w) && BodyFound(fold, start, Branch(items), end, w)
  {
    hide Ends;
    FedIsHarmless(items);
    var w := Shortest(Fed(items));
    assert w[0..] == w && Window(w, start, end, 0, |w|);
    ShortestPlain(fold, alnum, Fed(items), w, 0);
    assert BodyFound(fold, start, OptionalDots.Branch(PlainAll(Fed(items))), end, w);
    HarmlessSame(fold, Fed(items), start, end, w);
    var i: nat, j: nat :| Window(w, start, end, i, j) && j in Ends(fold, Branch(Fed(items)), w, i);
    FedFound(fold, items, w, i, j);
    forall i: nat, j: nat | Window(w, start, end, i, j) ensures j !in Ends(fold, AsRead(alnum, Branch(items)), w, i) {
      if j in Ends(fold, AsRead(alnum, Branch(items)), w, i) {
        ReadTakesAll(fold, alnum, items, w, i, j);
        FedLeast(items);
        ShortestLength(Fed(items));
        ReadMisses(fold, alnum, items, w, i, j);
      }
    }
  }

  // -------------------------------------------------------------------- the theorem

  lemma SameStrings(fold: char -> char, alnum: char -> bool, items: seq<Item>, start: bool, end: bool, x: char)
    requires AllSpelled(items) && KeepsLineFeed(fold) && OptionalDots.Fresh(fold, PlainAll(items), x)
    ensures (forall s :: BodyFound(fold, start, Branch(items), end, s) <==> BodyFound(fold, start, AsRead(alnum, Branch(items)), end, s))
            <==> Harmless(items) && !OptionalDots.Tight(PlainAll(items), false, !start, end)
  {
    hide BodyFound, AsRead, Branch, OptionalDots.Branch, OptionalDots.Tight, NoSigned, NoVertical, PossessivesLast, KeepsLineFeed;
    ReadAlike(alnum, items);
    if Harmless(items) {
      forall s ensures BodyFound(fold, start, Branch(items), end, s) <==> BodyFound(fold, start, OptionalDots.Branch(PlainAll(items)), end, s) {
        HarmlessSame(fold, items, start, end, s);
      }
      OptionalDots.SameStrings(fold, alnum, PlainAll(items), start, end, x);
    } else if NoSigned(items) && PossessivesLast(items) {
      VerticalDiffers(fold, alnum, items, start, end);
    } else {
      HarmfulDiffers(fold, alnum, items, start, end);
    }
  }

  lemma {:induction false} BranchHasNoLadder(alnum: char -> bool, items: seq<Item>)
    requires AllSpelled(items)
    ensures !Narrowed(alnum, Branch(items)) && !Branch(items).Or?
  {
    if items != [] {
      assert !Narrowed(alnum, Dot) && !Narrowed(alnum, Tree(items[0]));
      BranchHasNoLadder(alnum, items[1..]);
    }
  }

  /** For every accepted text of one branch: the emitted values match exactly the
      strings the source finds, if and only if no hexadecimal escape has a sign,
      there is no `\v`, behind a possessive quantifier nothing must be matched, and no `.?` stands
      in a block that holds no run. */
  lemma OneBranchExactly(fold: char -> char, alnum: char -> bool, text: string, items: seq<Item>, x: char)
    requires KnowsAscii(alnum) && Translate(alnum, text).Some? && TreeOf(alnum, text) == Branch(items)
    requires AllSpelled(items) && KeepsLineFeed(fold) && OptionalDots.Fresh(fold, PlainAll(items), x)
    ensures (forall s :: Found(fold, SourceTree(alnum, text), s) <==> Emitted(fold, alnum, text, s))
            <==> Harmless(items) && !OptionalDots.Tight(PlainAll(items), false, !ReadSource(text).start, ReadSource(text).end)
  {
    var src := ReadSource(text);
    BranchHasNoLadder(alnum, items);
    TranslateEmits(alnum, text);
    hide Found, Emitted, BodyFound, OptionalDots.Tight, AsRead, Branch, Harmless;
    forall s
      ensures Found(fold, SourceTree(alnum, text), s) <==> BodyFound(fold, src.start, Branch(items), src.end, s)
      ensures Emitted(fold, alnum, text, s) <==> BodyFound(fold, src.start, AsRead(alnum, Branch(items)), src.end, s)
    {
      AnchoredFound(fold, alnum, src.start, Branch(items), src.end, s);
      EmittedExactly(fold, alnum, text, s);
    }
    SameStrings(fold, alnum, items, src.start, src.end, x);
  }
}
