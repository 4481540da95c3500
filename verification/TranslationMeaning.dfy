/** The conditions under which a text means what the translator reads, and what
    classes, products and ladders of part sequences match. */
module TranslationMeaning {
  import opened Options
  import opened RegexSyntax
  import opened RegexSemantics
  import opened PercentEncoding
  import opened Expansion
  import opened Wildcards

  // --------------------------------------------------------------- side conditions

  /** A class body, from position i, that ends where the translator ends it and
      in which no range has an escaped endpoint: every backslash has a partner,
      no nested bracket opens, a hyphen does not touch an escape, and no `\v`. */
  predicate PlainItems(s: string, i: nat)
    requires i <= |s|
    decreases |s| - i
  {
    if i == |s| then true
    else if s[i] == '\\' then
      i + 1 < |s| && s[i + 1] != 'v' && !(i + 3 < |s| && s[i + 2] == '-') && PlainItems(s, i + 2)
    else if i + 2 < |s| && s[i + 1] == '-' then s[i + 2] != '\\' && PlainItems(s, i + 3)
    else s[i] != '[' && PlainItems(s, i + 1)
  }

  predicate SimpleClass(items: string) {
    items != "" && items != "^" && PlainItems(items, if items[0] == '^' then 1 else 0)
  }

  /** Classes are simple, every `\x` has two digits, and there is no `\v`. */
  predicate PlainlyRead(r: Rx) {
    match r
    case Seq(h, t) => PlainlyRead(h) && PlainlyRead(t)
    case Or(l, rt) => PlainlyRead(l) && PlainlyRead(rt)
    case Quant(a, _, _) => PlainlyRead(a)
    case Group(_, b) => PlainlyRead(b)
    case Class(items) => SimpleClass(items)
    case Hex(hi, lo) => ProperHex(hi, lo)
    case Escape(c) => c != 'v'
    case _ => true
  }

  predicate NoPossessive(r: Rx) {
    match r
    case Seq(h, t) => NoPossessive(h) && NoPossessive(t)
    case Or(l, rt) => NoPossessive(l) && NoPossessive(rt)
    case Quant(a, _, m) => m != "+" && NoPossessive(a)
    case Group(_, b) => NoPossessive(b)
    case _ => true
  }

  /** No `?` quantifier applies to a bare any-character atom. */
  predicate NoOptionalDot(alnum: char -> bool, r: Rx) {
    match r
    case Seq(h, t) => NoOptionalDot(alnum, h) && NoOptionalDot(alnum, t)
    case Or(l, rt) => NoOptionalDot(alnum, l) && NoOptionalDot(alnum, rt)
    case Quant(a, op, _) =>
      NoOptionalDot(alnum, a) && (op != '*' && op != '+' && Expand(alnum, a).Some? ==> !IsSingleOne(Expand(alnum, a).value))
    case Group(_, b) => NoOptionalDot(alnum, b)
    case _ => true
  }

  /** What is assumed of the Unicode letter-or-digit test: it holds of ASCII
      letters and digits. */
  ghost predicate KnowsAscii(alnum: char -> bool) {
    forall c: char :: IsAsciiLetter(c) || '0' <= c <= '9' ==> alnum(c)
  }

  const LINE_FEED: char := 10 as char

  /** Folding case leaves the line feed alone. */
  ghost predicate KeepsLineFeed(fold: char -> char) {
    fold(LINE_FEED) == LINE_FEED && forall c: char :: fold(c) == LINE_FEED ==> c == LINE_FEED
  }

  // ------------------------------------------------------------------------ classes

  ghost predicate SomeMember(fold: char -> char, members: seq<char>, x: char) {
    exists k :: 0 <= k < |members| && fold(members[k]) == fold(x)
  }

  lemma SomeMemberAppend(fold: char -> char, a: seq<char>, b: seq<char>, x: char)
    ensures SomeMember(fold, a + b, x) <==> SomeMember(fold, a, x) || SomeMember(fold, b, x)
  {
    if k :| 0 <= k < |a| && fold(a[k]) == fold(x) { assert (a + b)[k] == a[k]; }
    if k :| 0 <= k < |b| && fold(b[k]) == fold(x) { assert (a + b)[|a| + k] == b[k]; }
  }

  lemma SomeItemCons(fold: char -> char, item: ClassItem, items: seq<ClassItem>, x: char)
    ensures SomeItemHas(fold, [item] + items, x) <==> ItemHas(fold, item, x) || SomeItemHas(fold, items, x)
  {
    var all := [item] + items;
    if k :| 0 <= k < |items| && ItemHas(fold, items[k], x) { assert all[k + 1] == items[k]; }
    if ItemHas(fold, item, x) { assert all[0] == item; }
    if k :| 0 <= k < |all| && ItemHas(fold, all[k], x) { if k > 0 { assert all[k] == items[k - 1]; } }
  }

  lemma RangeMember(fold: char -> char, lo: char, hi: char, x: char)
    requires lo <= hi && hi as int - lo as int < MAX_CLASS_MEMBERS
    ensures SomeMember(fold, CharRange(lo, hi), x) <==> ItemHas(fold, Range(lo, hi), x)
  {
    var chars := CharRange(lo, hi);
    if m: char :| lo <= m <= hi && fold(m) == fold(x) {
      assert m in chars;
    }
    if k :| 0 <= k < |chars| && fold(chars[k]) == fold(x) {
      assert chars[k] in chars;
    }
  }

  lemma OneMember(fold: char -> char, c: char, x: char)
    ensures SomeMember(fold, [c], x) <==> ItemHas(fold, Range(c, c), x)
  {
    if fold(c) == fold(x) { assert [c][0] == c; }
  }

  /** One step of the translator's scan: the members it adds, and where it
      goes on. */
  function ScanStep(alnum: char -> bool, s: string, i: nat): (seq<char>, nat)
    requires i < |s| && Members(alnum, s, i).Some?
  {
    if s[i] == '\\' then ([EscapeMember(alnum, s[i + 1]).value], i + 2)
    else if i + 2 < |s| && s[i + 1] == '-' then (CharRange(s[i], s[i + 2]), i + 3)
    else ([s[i]], i + 1)
  }

  lemma ScanMembers(alnum: char -> bool, s: string, i: nat)
    requires i < |s| && Members(alnum, s, i).Some?
    ensures var (chars, next) := ScanStep(alnum, s, i);
            && i < next <= |s| && Members(alnum, s, next).Some?
            && Members(alnum, s, i).value == chars + Members(alnum, s, next).value
  {}

  lemma ScanItems(fold: char -> char, alnum: char -> bool, s: string, i: nat, x: char) returns (item: ClassItem)
    requires KnowsAscii(alnum) && i < |s| && PlainItems(s, i) && Members(alnum, s, i).Some?
    ensures var (chars, next) := ScanStep(alnum, s, i);
            && i < next <= |s| && PlainItems(s, next)
            && ClassItems(s, i) == [item] + ClassItems(s, next)
            && (SomeMember(fold, chars, x) <==> ItemHas(fold, item, x))
  {
    if s[i] == '\\' {
      var c := EscapeMember(alnum, s[i + 1]).value;
      item := Range(c, c);
      OneMember(fold, c, x);
    } else if i + 2 < |s| && s[i + 1] == '-' {
      item := Range(s[i], s[i + 2]);
      assert ClassUnit(s, i + 2) == Unit(Range(s[i + 2], s[i + 2]), i + 3);
      RangeMember(fold, s[i], s[i + 2], x);
    } else {
      item := Range(s[i], s[i]);
      OneMember(fold, s[i], x);
    }
  }

  /** In a plain body the enumerated members are the items of the class. */
  lemma {:induction false} MembersAreItems(fold: char -> char, alnum: char -> bool, s: string, i: nat, x: char)
    requires KnowsAscii(alnum) && i <= |s| && PlainItems(s, i) && Members(alnum, s, i).Some?
    ensures SomeMember(fold, Members(alnum, s, i).value, x) <==> SomeItemHas(fold, ClassItems(s, i), x)
    decreases |s| - i
  {
    if i < |s| {
      var (chars, next) := ScanStep(alnum, s, i);
      ScanMembers(alnum, s, i);
      var item := ScanItems(fold, alnum, s, i, x);
      MembersAreItems(fold, alnum, s, next, x);
      SomeMemberAppend(fold, chars, Members(alnum, s, next).value, x);
      SomeItemCons(fold, item, ClassItems(s, next), x);
    }
  }

  lemma SameMembers(fold: char -> char, a: seq<char>, b: seq<char>, x: char)
    requires forall c :: c in a ==> c in b
    requires SomeMember(fold, a, x)
    ensures SomeMember(fold, b, x)
  {
    var k :| 0 <= k < |a| && fold(a[k]) == fold(x);
    assert a[k] in a;
    var m :| 0 <= m < |b| && b[m] == a[k];
  }

  lemma ClassExact(fold: char -> char, alnum: char -> bool, items: string, x: char)
    requires KnowsAscii(alnum) && SimpleClass(items) && !ClassLossy(alnum, items)
    ensures ClassHas(fold, items, x) <==> SomeMember(fold, Enumerate(alnum, items).value, x)
  {
    var chars := Members(alnum, items, 0).value;
    var unique := Unique(chars);
    MembersAreItems(fold, alnum, items, 0, x);
    if SomeMember(fold, unique, x) { SameMembers(fold, unique, chars, x); }
    if SomeMember(fold, chars, x) { SameMembers(fold, chars, unique, x); }
  }

  // --------------------------------------------------------------- alternatives

  /** Some alternative matches, each ladder free to use any rung. */
  ghost predicate SomeMatches(fold: char -> char, a: seq<Parts>, t: string) {
    exists k :: 0 <= k < |a| && PartsMatch(fold, a[k], None, t)
  }

  lemma SomeMatchesAppend(fold: char -> char, a: seq<Parts>, b: seq<Parts>, t: string)
    ensures SomeMatches(fold, a + b, t) <==> SomeMatches(fold, a, t) || SomeMatches(fold, b, t)
  {
    if k :| 0 <= k < |a| && PartsMatch(fold, a[k], None, t) { assert (a + b)[k] == a[k]; }
    if k :| 0 <= k < |b| && PartsMatch(fold, b[k], None, t) { assert (a + b)[|a| + k] == b[k]; }
    if k :| 0 <= k < |a + b| && PartsMatch(fold, (a + b)[k], None, t) {
      if k < |a| { assert a[k] == (a + b)[k]; } else { assert b[k - |a|] == (a + b)[k]; }
    }
  }

  lemma SomeMatchesOne(fold: char -> char, p: Parts, t: string)
    ensures SomeMatches(fold, [p], t) <==> PartsMatch(fold, p, None, t)
  {
    assert [p][0] == p;
  }

  lemma {:induction false} CrossJoin(fold: char -> char, a: seq<Parts>, b: seq<Parts>, t: string, k: nat)
    requires k <= |t| && SomeMatches(fold, a, t[..k]) && SomeMatches(fold, b, t[k..])
    ensures SomeMatches(fold, Cross(a, b), t)
  {
    var first, rest := Prepend(a[0], b), Cross(a[1..], b);
    SomeMatchesAppend(fold, first, rest, t);
    if PartsMatch(fold, a[0], None, t[..k]) {
      var m :| 0 <= m < |b| && PartsMatch(fold, b[m], None, t[k..]);
      PartsJoin(fold, a[0], b[m], None, t, k);
      assert first[m] == a[0] + b[m];
    } else {
      var n :| 0 <= n < |a| && PartsMatch(fold, a[n], None, t[..k]);
      assert a[1..][n - 1] == a[n];
      CrossJoin(fold, a[1..], b, t, k);
    }
  }

  lemma {:induction false} CrossSplit(fold: char -> char, a: seq<Parts>, b: seq<Parts>, t: string) returns (k: nat)
    requires SomeMatches(fold, Cross(a, b), t)
    ensures k <= |t| && SomeMatches(fold, a, t[..k]) && SomeMatches(fold, b, t[k..])
    decreases |a|
  {
    assert a != [];
    var first, rest := Prepend(a[0], b), Cross(a[1..], b);
    SomeMatchesAppend(fold, first, rest, t);
    if SomeMatches(fold, first, t) {
      var m :| 0 <= m < |first| && PartsMatch(fold, first[m], None, t);
      k := PartsSplit(fold, a[0], b[m], None, t);
    } else {
      k := CrossSplit(fold, a[1..], b, t);
      var n :| 0 <= n < |a[1..]| && PartsMatch(fold, a[1..][n], None, t[..k]);
      assert a[n + 1] == a[1..][n];
    }
  }

  lemma LiteralParts(fold: char -> char, c: char, t: string)
    ensures PartsMatch(fold, [PartLit(c)], None, t) <==> |t| == 1 && fold(c) == fold(t[0])
  {
    var p := [PartLit(c)];
    assert p[1..] == [];
    if t != "" { assert |t[1..]| == |t| - 1; }
  }

  lemma OneParts(fold: char -> char, t: string)
    ensures PartsMatch(fold, [PartOne], None, t) <==> |t| == 1
  {
    var p := [PartOne];
    assert p[1..] == [];
    if t != "" { assert |t[1..]| == |t| - 1; }
  }

  lemma AnyParts(fold: char -> char, t: string)
    ensures PartsMatch(fold, [PartAny], None, t)
  {
    var p := [PartAny];
    assert p[1..] == [] && t[|t|..] == "";
    assert PartsMatch(fold, p[1..], None, t[|t|..]);
  }

  lemma SinglesMatch(fold: char -> char, members: seq<char>, t: string)
    ensures SomeMatches(fold, Singles(members), t) <==> |t| == 1 && SomeMember(fold, members, t[0])
  {
    var a := Singles(members);
    if k :| 0 <= k < |a| && PartsMatch(fold, a[k], None, t) {
      LiteralParts(fold, members[k], t);
    }
    if |t| == 1 {
      if k :| 0 <= k < |members| && fold(members[k]) == fold(t[0]) {
        LiteralParts(fold, members[k], t);
        assert PartsMatch(fold, a[k], None, t);
      }
    }
  }

  /** A ladder, taken positionally, matches what its branches match. */
  lemma LadderMatches(fold: char -> char, a: seq<Parts>, t: string)
    requires IsLadder(a)
    ensures SomeMatches(fold, [[PartLadder(Branches(a))]], t) <==> SomeMatches(fold, a, t)
  {
    var rungs := Branches(a);
    var p := [PartLadder(rungs)];
    assert p[1..] == [];
    SomeMatchesOne(fold, p, t);
    forall k | 0 <= k < |a|
      ensures PartsMatch(fold, a[k], None, t) <==> LadderTakes(fold, rungs[k], t) && t[|rungs[k]|..] == ""
    {
      LiteralPartsMatch(fold, a[k], t);
      if |rungs[k]| == |t| { assert t[..|t|] == t; }
    }
    if k :| 0 <= k < |a| && PartsMatch(fold, a[k], None, t) {
      assert LadderTakes(fold, rungs[k], t) && PartsMatch(fold, p[1..], None, t[|rungs[k]|..]);
    }
    if PartsMatch(fold, p, None, t) {
      var d :| 0 <= d < |rungs| && LadderTakes(fold, rungs[d], t) && PartsMatch(fold, p[1..], None, t[|rungs[d]|..]);
      assert PartsMatch(fold, a[d], None, t);
    }
  }

  lemma {:induction false} LiteralPartsMatch(fold: char -> char, p: Parts, t: string)
    requires IsLiteral(p)
    ensures PartsMatch(fold, p, None, t) <==> SameFolded(fold, LiteralText(p), t)
  {
    if p != [] && t != "" {
      assert LiteralText(p)[1..] == LiteralText(p[1..]);
      LiteralPartsMatch(fold, p[1..], t[1..]);
      SameFoldedCons(fold, LiteralText(p), t);
    }
  }
}
