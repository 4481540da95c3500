/** What a regex matches: a backtracking matcher in the Perl-compatible style.

    `Ends` lists, in the order a backtracking engine tries them, the positions
    where a match starting at `i` can end.  The order only matters to possessive
    quantifiers, which keep the first choice and give nothing back.  Letter case
    enters through `fold`: two characters agree when their folds are equal, so
    the identity is case-sensitive matching. */
module RegexSemantics {
  import opened RegexSyntax

  // ------------------------------------------------------- single characters

  predicate IsWordChar(x: char) {
    'a' <= x <= 'z' || 'A' <= x <= 'Z' || '0' <= x <= '9' || x == '_'
  }

  predicate IsBlankChar(x: char) {
    x == ' ' || 9 <= x as int <= 13
  }

  /** Vertical white space: line feed to carriage return, next line, and the line
      and paragraph separators. */
  predicate IsVerticalChar(x: char) {
    10 <= x as int <= 13 || x as int == 0x85 || x as int == 0x2028 || x as int == 0x2029
  }

  /** The escapes that stand for a set: the shorthands, and `\v`, which the compiler
      takes for one vertical tab. */
  predicate IsSetEscape(c: char) { IsShorthand(c) || c == 'v' }

  predicate ShorthandHas(c: char, x: char) {
    if c == 'v' then IsVerticalChar(x)
    else if c == 's' then IsBlankChar(x)
    else if c == 'S' then !IsBlankChar(x)
    else if c == 'd' then '0' <= x <= '9'
    else if c == 'D' then !('0' <= x <= '9')
    else if c == 'w' then IsWordChar(x)
    else !IsWordChar(x)
  }

  /** The character an escape other than a set or a boundary stands for. */
  function EscapedChar(c: char): char {
    if IsControlEscape(c) then ControlChar(c) else c
  }

  predicate ProperHex(hi: char, lo: char) {
    HexDigitValue(hi) >= 0 && HexDigitValue(lo) >= 0
  }

  const NUL: char := 0 as char

  /** `\xHH` is one character.  Without two digits `\x` is NUL: a `+` that follows
      repeats it, a `-` stands for itself, and so does the last character. */
  function HexText(hi: char, lo: char): string {
    if ProperHex(hi, lo) then [(HexDigitValue(hi) * 16 + HexDigitValue(lo)) as char]
    else [NUL, hi, lo]
  }

  // ------------------------------------------------------------------ classes

  datatype ClassItem = Range(lo: char, hi: char) | AnyOf(shorthand: char)

  datatype Unit = Unit(item: ClassItem, next: nat)

  function ClassUnit(s: string, i: nat): (u: Unit)
    requires i < |s|
    ensures i < u.next <= |s|
    ensures u.item.Range? ==> u.item.lo == u.item.hi
  {
    if s[i] == '\\' && i + 1 < |s| then
      var f := s[i + 1];
      Unit(if IsSetEscape(f) then AnyOf(f) else Range(EscapedChar(f), EscapedChar(f)), i + 2)
    else Unit(Range(s[i], s[i]), i + 1)
  }

  /** The items of a class body: a hyphen between two single characters,
      escaped or not, makes a range. */
  function ClassItems(s: string, i: nat): seq<ClassItem>
    requires i <= |s|
    decreases |s| - i
  {
    if i == |s| then []
    else
      var u := ClassUnit(s, i);
      if u.item.Range? && u.next + 1 < |s| && s[u.next] == '-' then
        var v := ClassUnit(s, u.next + 1);
        if v.item.Range? then [Range(u.item.lo, v.item.hi)] + ClassItems(s, v.next)
        else [u.item, Range('-', '-'), v.item] + ClassItems(s, v.next)
      else [u.item] + ClassItems(s, u.next)
  }

  ghost predicate ItemHas(fold: char -> char, item: ClassItem, x: char) {
    match item
    case Range(lo, hi) => exists m: char :: lo <= m <= hi && fold(m) == fold(x)
    case AnyOf(c) => ShorthandHas(c, x)
  }

  ghost predicate SomeItemHas(fold: char -> char, items: seq<ClassItem>, x: char) {
    exists k :: 0 <= k < |items| && ItemHas(fold, items[k], x)
  }

  ghost predicate ClassHas(fold: char -> char, body: string, x: char) {
    if body != "" && body[0] == '^' then !SomeItemHas(fold, ClassItems(body, 1), x)
    else SomeItemHas(fold, ClassItems(body, 0), x)
  }

  // ------------------------------------------------------------------ matching

  predicate IsSingle(r: Rx) {
    r.Lit? || r.Dot? || r.Class? || (r.Escape? && r.c != 'b' && r.c != 'B')
  }

  ghost predicate SingleHas(fold: char -> char, r: Rx, x: char)
    requires IsSingle(r)
  {
    match r
    case Lit(c) => fold(c) == fold(x)
    case Dot => true
    case Class(items) => ClassHas(fold, items, x)
    case Escape(c) => if IsSetEscape(c) then ShorthandHas(c, x) else fold(EscapedChar(c)) == fold(x)
  }

  predicate WordAt(s: string, i: int) {
    0 <= i < |s| && IsWordChar(s[i])
  }

  predicate IsBoundary(s: string, i: nat) {
    WordAt(s, i - 1) != WordAt(s, i)
  }

  predicate SameFolded(fold: char -> char, u: string, v: string) {
    |u| == |v| && forall k :: 0 <= k < |u| ==> fold(u[k]) == fold(v[k])
  }

  ghost predicate Within(ends: seq<nat>, lo: nat, hi: nat) {
    forall k :: 0 <= k < |ends| ==> lo <= ends[k] <= hi
  }

  ghost function Ends(fold: char -> char, r: Rx, s: string, i: nat): (ends: seq<nat>)
    requires i <= |s|
    ensures Within(ends, i, |s|)
    decreases r, 0
  {
    match r
    case Eps => [i]
    case Seq(h, t) => EndsAll(fold, t, s, i, Ends(fold, h, s, i))
    case Or(l, rt) => Ends(fold, l, s, i) + Ends(fold, rt, s, i)
    case Group(_, b) => Ends(fold, b, s, i)
    case Quant(a, op, marker) =>
      var lazy := marker == "?";
      var ends :=
        if op == '*' then StarEnds(fold, a, s, i, lazy)
        else if op == '+' then PlusAll(fold, a, s, i, Ends(fold, a, s, i), lazy)
        else if lazy then [i] + Ends(fold, a, s, i)
        else Ends(fold, a, s, i) + [i];
      if marker == "+" && ends != [] then [ends[0]] else ends
    case Hex(hi, lo) =>
      var text := HexText(hi, lo);
      if hi == '+' then NulRunEnds(fold, lo, s, i)
      else if i + |text| <= |s| && SameFolded(fold, text, s[i..i + |text|]) then [i + |text|] else []
    case Start => if i == 0 then [i] else []
    case End => if i == |s| then [i] else []
    case Escape(c) =>
      if c == 'b' || c == 'B' then if IsBoundary(s, i) == (c == 'b') then [i] else []
      else SingleEnds(fold, r, s, i)
    case Lit(_) => SingleEnds(fold, r, s, i)
    case Dot => SingleEnds(fold, r, s, i)
    case Class(_) => SingleEnds(fold, r, s, i)
  }

  ghost function SingleEnds(fold: char -> char, r: Rx, s: string, i: nat): (ends: seq<nat>)
    requires IsSingle(r) && i <= |s|
    ensures Within(ends, i, |s|)
  {
    if i < |s| && SingleHas(fold, r, s[i]) then [i + 1] else []
  }

  /** One or more NULs, as many as possible first, and then the character. */
  ghost function NulRunEnds(fold: char -> char, last: char, s: string, i: nat): (ends: seq<nat>)
    requires i <= |s|
    ensures Within(ends, i, |s|)
    decreases |s| - i
  {
    if i < |s| && fold(s[i]) == fold(NUL) then
      NulRunEnds(fold, last, s, i + 1) + if i + 1 < |s| && fold(s[i + 1]) == fold(last) then [i + 2] else []
    else []
  }

  /** The ends of `r` from each of the given positions, in order. */
  ghost function EndsAll(fold: char -> char, r: Rx, s: string, i: nat, from: seq<nat>): (ends: seq<nat>)
    requires i <= |s| && Within(from, i, |s|)
    ensures Within(ends, i, |s|)
    decreases r, 1, |from|
  {
    if from == [] then []
    else Ends(fold, r, s, from[0]) + EndsAll(fold, r, s, i, from[1..])
  }

  /** Repetition: another pass must make progress. */
  ghost function StarEnds(fold: char -> char, r: Rx, s: string, i: nat, lazy: bool): (ends: seq<nat>)
    requires i <= |s|
    ensures Within(ends, i, |s|)
    decreases r, 2, |s| - i, 1, 0
  {
    var more := StarAll(fold, r, s, i, Ends(fold, r, s, i), lazy);
    if lazy then [i] + more else more + [i]
  }

  ghost function StarAll(fold: char -> char, r: Rx, s: string, i: nat, from: seq<nat>, lazy: bool): (ends: seq<nat>)
    requires i <= |s| && Within(from, i, |s|)
    ensures Within(ends, i, |s|)
    decreases r, 2, |s| - i, 0, |from|
  {
    if from == [] then []
    else
      (if from[0] > i then StarEnds(fold, r, s, from[0], lazy) else []) +
      StarAll(fold, r, s, i, from[1..], lazy)
  }

  ghost function PlusAll(fold: char -> char, r: Rx, s: string, i: nat, from: seq<nat>, lazy: bool): (ends: seq<nat>)
    requires i <= |s| && Within(from, i, |s|)
    ensures Within(ends, i, |s|)
    decreases r, 3, |from|
  {
    if from == [] then []
    else StarEnds(fold, r, s, from[0], lazy) + PlusAll(fold, r, s, i, from[1..], lazy)
  }

  /** An unanchored search succeeds. */
  ghost predicate Found(fold: char -> char, r: Rx, s: string) {
    exists i :: 0 <= i <= |s| && Ends(fold, r, s, i) != []
  }

  // ---------------------------------------------------------------- membership

  lemma {:induction false} EndsAllFrom(fold: char -> char, r: Rx, s: string, i: nat, from: seq<nat>, j: nat)
    requires i <= |s| && Within(from, i, |s|)
    ensures j in EndsAll(fold, r, s, i, from) <==>
            exists k :: 0 <= k < |from| && j in Ends(fold, r, s, from[k])
    decreases |from|
  {
    if from != [] {
      EndsAllFrom(fold, r, s, i, from[1..], j);
      if k :| 0 <= k < |from| && j in Ends(fold, r, s, from[k]) {
        if k > 0 { assert from[1..][k - 1] == from[k]; }
      }
      if k :| 0 <= k < |from[1..]| && j in Ends(fold, r, s, from[1..][k]) {
        assert from[k + 1] == from[1..][k];
      }
    }
  }

  /** A concatenation splits at a middle position. */
  lemma SeqEnds(fold: char -> char, h: Rx, t: Rx, s: string, i: nat, j: nat)
    requires i <= |s|
    ensures j in Ends(fold, Seq(h, t), s, i) <==>
            exists k :: k in Ends(fold, h, s, i) && i <= k <= |s| && j in Ends(fold, t, s, k)
  {
    var from := Ends(fold, h, s, i);
    EndsAllFrom(fold, t, s, i, from, j);
    if k :| 0 <= k < |from| && j in Ends(fold, t, s, from[k]) {
      assert from[k] in from;
    }
  }

  /** From a position where `r` may end further on, repeating continues. */
  lemma {:induction false} StarAllFrom(fold: char -> char, r: Rx, s: string, i: nat, from: seq<nat>, lazy: bool, e: nat, j: nat)
    requires i <= |s| && Within(from, i, |s|)
    requires e in from && e > i && j in StarEnds(fold, r, s, e, lazy)
    ensures j in StarAll(fold, r, s, i, from, lazy)
    decreases |from|
  {
    if from[0] != e {
      StarAllFrom(fold, r, s, i, from[1..], lazy, e, j);
    }
  }

  lemma {:induction false} PlusAllFrom(fold: char -> char, r: Rx, s: string, i: nat, from: seq<nat>, lazy: bool, j: nat)
    requires i <= |s| && Within(from, i, |s|)
    ensures j in PlusAll(fold, r, s, i, from, lazy) <==>
            exists k :: 0 <= k < |from| && j in StarEnds(fold, r, s, from[k], lazy)
    decreases |from|
  {
    if from != [] {
      PlusAllFrom(fold, r, s, i, from[1..], lazy, j);
      if k :| 0 <= k < |from| && j in StarEnds(fold, r, s, from[k], lazy) {
        if k > 0 { assert from[1..][k - 1] == from[k]; }
      }
      if k :| 0 <= k < |from[1..]| && j in StarEnds(fold, r, s, from[1..][k], lazy) {
        assert from[k + 1] == from[1..][k];
      }
    }
  }

  /** If `r` takes any one character, repeating it reaches every position. */
  lemma {:induction false} StarOfAnyChar(fold: char -> char, r: Rx, s: string, i: nat, j: nat, lazy: bool)
    requires i <= j <= |s|
    requires forall k :: 0 <= k < |s| ==> k + 1 in Ends(fold, r, s, k)
    ensures j in StarEnds(fold, r, s, i, lazy)
    decreases j - i
  {
    if i < j {
      StarOfAnyChar(fold, r, s, i + 1, j, lazy);
      StarAllFrom(fold, r, s, i, Ends(fold, r, s, i), lazy, i + 1, j);
    }
  }

  lemma {:induction false} NulRunLong(fold: char -> char, last: char, s: string, i: nat, j: nat)
    requires i <= |s| && j in NulRunEnds(fold, last, s, i)
    ensures i + 2 <= j
    decreases |s| - i
  {
    if j in NulRunEnds(fold, last, s, i + 1) { NulRunLong(fold, last, s, i + 1, j); }
  }

  /** A greedy run of any characters first takes everything. */
  lemma {:induction false} GreedyFirst(fold: char -> char, s: string, i: nat)
    requires i <= |s|
    ensures var ends := StarEnds(fold, Dot, s, i, false); ends != [] && ends[0] == |s|
    decreases |s| - i
  {
    if i < |s| {
      GreedyFirst(fold, s, i + 1);
      var from := Ends(fold, Dot, s, i);
      assert from == [i + 1];
      assert StarAll(fold, Dot, s, i, from, false) ==
             StarEnds(fold, Dot, s, i + 1, false) + StarAll(fold, Dot, s, i, from[1..], false);
    } else {
      assert Ends(fold, Dot, s, i) == [];
    }
  }

  /** A possessive run of any characters takes everything. */
  lemma PossessiveRun(fold: char -> char, s: string, i: nat)
    requires i <= |s|
    ensures Ends(fold, Quant(Dot, '*', "+"), s, i) == [|s|]
    ensures Ends(fold, Quant(Dot, '+', "+"), s, i) == if i < |s| then [|s|] else []
  {
    GreedyFirst(fold, s, i);
    var from := Ends(fold, Dot, s, i);
    if i < |s| {
      assert from == [i + 1];
      GreedyFirst(fold, s, i + 1);
      assert PlusAll(fold, Dot, s, i, from, false) == StarEnds(fold, Dot, s, i + 1, false) + PlusAll(fold, Dot, s, i, from[1..], false);
    } else {
      assert from == [];
    }
  }

  /** A possessive option takes one character if there is one. */
  lemma PossessiveOption(fold: char -> char, s: string, i: nat)
    requires i <= |s|
    ensures Ends(fold, Quant(Dot, '?', "+"), s, i) == if i < |s| then [i + 1] else [i]
  {}
}
