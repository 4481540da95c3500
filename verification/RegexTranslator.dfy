/** The cursor-style translator: one pass over the text that reads and expands
    at the same time, proved to be "parse, then expand". */
module RegexTranslator {
  import opened Options
  import opened RegexSyntax
  import opened PercentEncoding
  import opened Expansion

  // ------------------------------------------------------------ what a pass yields

  datatype Outcome = Declined | Expanded(alts: seq<Parts>, next: nat, lossy: bool, narrowed: bool)

  function OutcomeOf(alnum: char -> bool, p: Parsed): (o: Outcome)
    ensures o.Expanded? ==> p.Parsed? && o.next == p.next
  {
    if p.Failed? || Expand(alnum, p.rx).None? then Declined
    else Expanded(Expand(alnum, p.rx).value, p.next, Lossy(alnum, p.rx), Narrowed(alnum, p.rx))
  }

  function JoinOutcome(a: Outcome, b: Outcome): Outcome {
    if a.Declined? || b.Declined? || |a.alts| * |b.alts| > MAX_VALUES then Declined
    else Expanded(Cross(a.alts, b.alts), b.next, a.lossy || b.lossy, a.narrowed || b.narrowed)
  }

  function UnionOutcome(a: Outcome, b: Outcome): Outcome {
    if a.Declined? || b.Declined? || |a.alts| + |b.alts| > MAX_VALUES then Declined
    else Expanded(a.alts + b.alts, b.next, a.lossy || b.lossy, a.narrowed || b.narrowed)
  }

  predicate Bounded(o: Outcome) {
    o.Expanded? ==> 1 <= |o.alts| <= MAX_VALUES
  }

  /** A quantifier is taken exactly where its atom is, stands for no word boundary,
      and as a group is no ladder and has alternatives of one part each. */
  lemma QuantifierTaken(alnum: char -> bool, a: Rx, op: char, marker: string)
    ensures Expand(alnum, Quant(a, op, marker)).Some? <==>
            && Expand(alnum, a).Some? && a != Escape('b') && a != Escape('B')
            && (a.Group? ==> var alts := Expand(alnum, a.body).value;
                             !IsLadder(alts) && forall k :: 0 <= k < |alts| ==> exists part :: alts[k] == [part])
  {
    if a.Group? && Expand(alnum, a.body).Some? {
      var alts := Expand(alnum, a.body).value;
      forall k | 0 <= k < |alts| ensures |alts[k]| == 1 <==> exists part :: alts[k] == [part] {
        if |alts[k]| == 1 { assert alts[k] == [alts[k][0]]; }
      }
    }
  }

  /** Joined or united, alternatives are carried on exactly up to thirty-two. */
  lemma CarriedOn(a: seq<Parts>, b: seq<Parts>)
    ensures Join(Some(a), Some(b)).Some? <==> |a| * |b| <= 32
    ensures Union(Some(a), Some(b)).Some? <==> |a| + |b| <= 32
  {}

  /** Every expansion carried forward has between 1 and 32 alternatives. */
  lemma {:induction false} ExpandBounded(alnum: char -> bool, r: Rx)
    ensures Expand(alnum, r).Some? ==> 1 <= |Expand(alnum, r).value| <= MAX_VALUES
  {
    match r
    case Seq(h, t) =>
      ExpandBounded(alnum, h);
      ExpandBounded(alnum, t);
      var a, b := Expand(alnum, h), Expand(alnum, t);
      if a.Some? && b.Some? { ProductPositive(|a.value|, |b.value|); }
    case Or(l, rt) =>
      ExpandBounded(alnum, l);
      ExpandBounded(alnum, rt);
    case Quant(a, _, _) => ExpandBounded(alnum, a);
    case Group(_, b) => ExpandBounded(alnum, b);
    case Class(items) =>
      if !ClassLossy(alnum, items) {
        var chars := Members(alnum, items, 0).value;
        assert chars[0] in Unique(chars);
      }
    case _ =>
  }

  lemma ProductPositive(m: nat, n: nat)
    requires 1 <= m && 1 <= n
    ensures m * n >= m && m * n >= n
  {}

  // ------------------------------------------------------------- laws of products

  lemma {:induction false} CrossAppend(a: seq<Parts>, b: seq<Parts>, c: seq<Parts>)
    ensures Cross(a + b, c) == Cross(a, c) + Cross(b, c)
  {
    if a == [] {
      assert a + b == b;
    } else {
      assert (a + b)[1..] == a[1..] + b;
      CrossAppend(a[1..], b, c);
    }
  }

  lemma {:induction false} CrossPrepend(p: Parts, b: seq<Parts>, c: seq<Parts>)
    ensures Cross(Prepend(p, b), c) == Prepend(p, Cross(b, c))
  {
    if b != [] {
      assert Prepend(p, b)[1..] == Prepend(p, b[1..]);
      CrossPrepend(p, b[1..], c);
      var x, y := Prepend(b[0], c), Cross(b[1..], c);
      assert Prepend(p + b[0], c) == Prepend(p, x) by {
        forall k | 0 <= k < |c| ensures p + b[0] + c[k] == p + (b[0] + c[k]) {}
      }
      assert Prepend(p, x + y) == Prepend(p, x) + Prepend(p, y);
    }
  }

  /** Expanding left to right or right to left gives the same list. */
  lemma {:induction false} CrossAssociates(a: seq<Parts>, b: seq<Parts>, c: seq<Parts>)
    ensures Cross(Cross(a, b), c) == Cross(a, Cross(b, c))
  {
    if a != [] {
      CrossAppend(Prepend(a[0], b), Cross(a[1..], b), c);
      CrossPrepend(a[0], b, c);
      CrossAssociates(a[1..], b, c);
    }
  }

  lemma CrossUnit(b: seq<Parts>)
    ensures Cross([[]], b) == b
  {
    assert forall k :: 0 <= k < |b| ==> [] + b[k] == b[k];
    assert Prepend([], b) == b;
  }

  lemma JoinUnit(o: Outcome, i: nat)
    requires Bounded(o)
    ensures JoinOutcome(Expanded([[]], i, false, false), o) == o
  {
    if o.Expanded? { CrossUnit(o.alts); }
  }

  /** Joining two expansions, or declining because there are too many. */
  lemma JoinFold(a: Outcome, b: Outcome, c: Outcome)
    requires a.Expanded? && b.Expanded? && Bounded(a) && Bounded(b)
    ensures var j := JoinOutcome(a, b);
            && Bounded(j)
            && (|Cross(a.alts, b.alts)| > MAX_VALUES ==> j == Declined && JoinOutcome(j, c) == Declined)
            && (|Cross(a.alts, b.alts)| <= MAX_VALUES ==>
                  j == Expanded(Cross(a.alts, b.alts), b.next, a.lossy || b.lossy, a.narrowed || b.narrowed))
  {
    ProductPositive(|a.alts|, |b.alts|);
  }

  lemma JoinAssociates(a: Outcome, b: Outcome, c: Outcome)
    requires Bounded(a) && Bounded(b) && Bounded(c)
    ensures JoinOutcome(JoinOutcome(a, b), c) == JoinOutcome(a, JoinOutcome(b, c))
  {
    if a.Expanded? && b.Expanded? && c.Expanded? {
      CrossAssociates(a.alts, b.alts, c.alts);
      ProductAssociates(|a.alts|, |b.alts|, |c.alts|);
    }
  }

  lemma ProductAssociates(m: nat, n: nat, k: nat)
    requires 1 <= m && 1 <= n && 1 <= k
    ensures m * n * k == m * (n * k)
    ensures m * n * k >= m * n && m * (n * k) >= n * k
  {
    ProductPositive(m * n, k);
    ProductPositive(m, n * k);
  }

  // ---------------------------------------------------------------- small loops

  method EnumerateClass(alnum: char -> bool, s: string) returns (r: Option<seq<char>>)
    ensures r == Enumerate(alnum, s)
  {
    var members: seq<char> := [];
    var i := 0;
    if Members(alnum, s, 0).Some? { assert [] + Members(alnum, s, 0).value == Members(alnum, s, 0).value; }
    while i < |s|
      invariant i <= |s|
      invariant Members(alnum, s, 0) == Cons(members, Members(alnum, s, i))
    {
      if s[i] == '\\' {
        if i + 1 >= |s| { return None; }
        var f := s[i + 1];
        if IsShorthand(f) || alnum(f) {
          if !IsControlEscape(f) { return None; }
          ConsCons(members, [ControlChar(f)], Members(alnum, s, i + 2));
          members := members + [ControlChar(f)];
        } else {
          ConsCons(members, [f], Members(alnum, s, i + 2));
          members := members + [f];
        }
        i := i + 2;
      } else if i + 2 < |s| && s[i + 1] == '-' {
        if s[i + 2] < s[i] || s[i + 2] as int - s[i] as int >= MAX_CLASS_MEMBERS { return None; }
        ConsCons(members, CharRange(s[i], s[i + 2]), Members(alnum, s, i + 3));
        members := members + CharRange(s[i], s[i + 2]);
        i := i + 3;
      } else {
        ConsCons(members, [s[i]], Members(alnum, s, i + 1));
        members := members + [s[i]];
        i := i + 1;
      }
    }
    assert members + [] == members;
    if members == [] { return None; }
    var unique := UniqueLoop(members);
    return Some(unique);
  }

  lemma ConsCons(a: seq<char>, b: seq<char>, rest: Option<seq<char>>)
    ensures Cons(a, Cons(b, rest)) == Cons(a + b, rest)
  {
    if rest.Some? {
      assert a + (b + rest.value) == a + b + rest.value;
    }
  }

  /** `asEncodingLadder`. */
  method AsEncodingLadder(a: seq<Parts>) returns (r: Option<seq<string>>)
    ensures IsLadder(a) ==> r == Some(Branches(a))
    ensures !IsLadder(a) ==> r.None?
  {
    if |a| < 2 { return None; }
    var branches: seq<string> := [];
    for k := 0 to |a|
      invariant |branches| == k
      invariant forall j :: 0 <= j < k ==> IsLiteral(a[j]) && a[j] != [] && branches[j] == LiteralText(a[j])
    {
      var text := "";
      for m := 0 to |a[k]|
        invariant |text| == m
        invariant forall j :: 0 <= j < m ==> a[k][j].PartLit? && text[j] == a[k][j].c
      {
        if !a[k][m].PartLit? { return None; }
        text := text + [a[k][m].c];
      }
      if text == "" { return None; }
      assert text == LiteralText(a[k]);
      branches := branches + [text];
    }
    assert branches == Branches(a);
    for k := 1 to |branches|
      invariant forall j :: 1 <= j < k ==> branches[j] == QuoteAll(branches[j - 1])
    {
      if branches[k] != QuoteAll(branches[k - 1]) { return None; }
    }
    return Some(branches);
  }

  /** The two nested loops that combine every prefix with every suffix. */
  method CrossLoop(a: seq<Parts>, b: seq<Parts>) returns (out: seq<Parts>)
    ensures out == Cross(a, b)
  {
    out := [];
    for i := 0 to |a|
      invariant out == Cross(a[..i], b)
    {
      ghost var before := out;
      for j := 0 to |b|
        invariant out == before + Prepend(a[i], b[..j])
      {
        assert Prepend(a[i], b[..j + 1]) == Prepend(a[i], b[..j]) + [a[i] + b[j]];
        out := out + [a[i] + b[j]];
      }
      assert b[..|b|] == b;
      assert a[..i + 1] == a[..i] + [a[i]];
      CrossAppend(a[..i], [a[i]], b);
      assert Cross([a[i]], b) == Prepend(a[i], b) + Cross([], b);
    }
    assert a[..|a|] == a;
  }

  method AllLength1Loop(a: seq<Parts>) returns (single: bool)
    ensures single == AllLength1(a)
  {
    for k := 0 to |a|
      invariant forall j :: 0 <= j < k ==> |a[j]| == 1
    {
      if |a[k]| != 1 { return false; }
    }
    return true;
  }

  method AppendAnyLoop(a: seq<Parts>) returns (out: seq<Parts>)
    ensures out == AppendAny(a)
  {
    out := [];
    for i := 0 to |a|
      invariant |out| == i
      invariant forall k :: 0 <= k < i ==> out[k] == a[k] + [PartAny]
    {
      out := out + [a[i] + [PartAny]];
    }
  }

  lemma {:induction false} CrossEps(a: seq<Parts>)
    ensures Cross(a, [[]]) == a
  {
    if a != [] {
      CrossEps(a[1..]);
      assert a[0] + [] == a[0];
      assert Prepend(a[0], [[]]) == [a[0]];
    }
  }

  /** What one part renders to, after a run or not. */
  function Piece(q: Part, depth: nat, lastAny: bool): string
    requires LaddersHave([q], depth)
  {
    match q
    case PartLadder(rungs) => assert [q][0] == q; rungs[depth]
    case PartAny => if lastAny then "" else "*"
    case PartOne => "?"
    case PartLit(c) => [c]
  }

  lemma RenderFirst(p: Parts, depth: nat, lastAny: bool)
    requires p != [] && LaddersHave(p, depth)
    ensures LaddersHave([p[0]], depth) && LaddersHave(p[1..], depth)
    ensures Render(p, depth, lastAny) == Piece(p[0], depth, lastAny) + Render(p[1..], depth, p[0].PartAny?)
  {
    assert LaddersHave([p[0]], depth);
  }

  lemma {:induction false} RenderLast(p: Parts, q: Part, depth: nat, lastAny: bool)
    requires LaddersHave(p, depth) && LaddersHave([q], depth) && LaddersHave(p + [q], depth)
    ensures Render(p + [q], depth, lastAny) ==
            Render(p, depth, lastAny) + Render([q], depth, if p == [] then lastAny else p[|p| - 1].PartAny?)
  {
    if p == [] {
      assert p + [q] == [q];
    } else {
      RenderFirst(p, depth, lastAny);
      RenderFirst(p + [q], depth, lastAny);
      hide Render, Piece, LaddersHave;
      assert (p + [q])[0] == p[0] && (p + [q])[1..] == p[1..] + [q];
      RenderLast(p[1..], q, depth, p[0].PartAny?);
    }
  }

  /** `render`: one value per part sequence, adjacent runs written once. */
  method RenderLoop(p: Parts, depth: nat) returns (text: string, usedWildcard: bool)
    requires LaddersHave(p, depth)
    ensures text == Render(p, depth, false)
    ensures usedWildcard <==> UsesWildcard(p)
  {
    text, usedWildcard := "", false;
    var lastWasAny := false;
    for i := 0 to |p|
      invariant LaddersHave(p[..i], depth)
      invariant text == Render(p[..i], depth, false)
      invariant lastWasAny == (i > 0 && p[i - 1].PartAny?)
      invariant usedWildcard <==> exists k :: 0 <= k < i && (p[k].PartAny? || p[k].PartOne?)
    {
      assert p[..i + 1] == p[..i] + [p[i]];
      assert LaddersHave(p[..i + 1], depth);
      assert LaddersHave([p[i]], depth);
      RenderLast(p[..i], p[i], depth, false);
      match p[i] {
        case PartLadder(rungs) =>
          text := text + rungs[depth];
          lastWasAny := false;
        case PartAny =>
          usedWildcard := true;
          if !lastWasAny {
            text := text + "*";
            lastWasAny := true;
          }
        case PartOne =>
          usedWildcard := true;
          text := text + "?";
          lastWasAny := false;
        case PartLit(c) =>
          text := text + [c];
          lastWasAny := false;
      }
    }
    assert p[..|p|] == p;
  }

  // -------------------------------------------------- one step of each production

  /** What remains to do after a branch of an alternation. */
  function AltRest(alnum: char -> bool, s: string, depth: nat, o: Outcome): Outcome
    requires o.Expanded? ==> o.next <= |s|
  {
    if o.Declined? || !At(s, o.next, '|') then o
    else UnionOutcome(o, OutcomeOf(alnum, ParseAlternation(alnum, s, o.next + 1, depth)))
  }

  lemma AltUnfold(alnum: char -> bool, s: string, i: nat, depth: nat)
    requires i <= |s| && depth <= MAX_NEST_DEPTH
    ensures OutcomeOf(alnum, ParseAlternation(alnum, s, i, depth)) ==
            AltRest(alnum, s, depth, OutcomeOf(alnum, ParseConcat(alnum, s, i, depth)))
  {}

  lemma TooDeep(alnum: char -> bool, s: string, i: nat, depth: nat)
    requires i <= |s| && depth > MAX_NEST_DEPTH
    ensures OutcomeOf(alnum, ParseAlternation(alnum, s, i, depth)) == Declined
  {}

  lemma AltStep(alnum: char -> bool, s: string, depth: nat, o: Outcome)
    requires o.Expanded? && At(s, o.next, '|') && depth <= MAX_NEST_DEPTH
    ensures var c := OutcomeOf(alnum, ParseConcat(alnum, s, o.next + 1, depth));
            && (c.Expanded? ==> c.next <= |s|)
            && AltRest(alnum, s, depth, o) == AltRest(alnum, s, depth, UnionOutcome(o, c))
  {
    hide OutcomeOf, ParseConcat, ParseAlternation;
    var c := OutcomeOf(alnum, ParseConcat(alnum, s, o.next + 1, depth));
    AltUnfold(alnum, s, o.next + 1, depth);
    if c.Expanded? && At(s, c.next, '|') {
      var rest := OutcomeOf(alnum, ParseAlternation(alnum, s, c.next + 1, depth));
      if rest.Expanded? {
        assert o.alts + (c.alts + rest.alts) == o.alts + c.alts + rest.alts;
      }
    }
  }

  lemma OutcomeBounded(alnum: char -> bool, p: Parsed)
    ensures Bounded(OutcomeOf(alnum, p))
  {
    if p.Parsed? { ExpandBounded(alnum, p.rx); }
  }

  lemma ConcatStep(alnum: char -> bool, s: string, i: nat, depth: nat)
    requires i < |s| && !ConcatStops(s, i)
    ensures var t := OutcomeOf(alnum, ParseTerm(alnum, s, i, depth));
            && (t.Expanded? ==> t.next <= |s|)
            && OutcomeOf(alnum, ParseConcat(alnum, s, i, depth)) ==
               if t.Declined? then Declined
               else JoinOutcome(t, OutcomeOf(alnum, ParseConcat(alnum, s, t.next, depth)))
  {}

  /** The loop of `parseConcat` may fold the next term into what it has. */
  lemma ConcatFold(alnum: char -> bool, s: string, depth: nat, o: Outcome)
    requires o.Expanded? && Bounded(o) && o.next < |s| && !ConcatStops(s, o.next)
    ensures var t := OutcomeOf(alnum, ParseTerm(alnum, s, o.next, depth));
            && Bounded(t) && (t.Expanded? ==> t.next <= |s|)
            && JoinOutcome(o, OutcomeOf(alnum, ParseConcat(alnum, s, o.next, depth))) ==
               if t.Declined? then Declined
               else JoinOutcome(JoinOutcome(o, t), OutcomeOf(alnum, ParseConcat(alnum, s, t.next, depth)))
  {
    var t := OutcomeOf(alnum, ParseTerm(alnum, s, o.next, depth));
    ConcatStep(alnum, s, o.next, depth);
    OutcomeBounded(alnum, ParseTerm(alnum, s, o.next, depth));
    if t.Expanded? {
      OutcomeBounded(alnum, ParseConcat(alnum, s, t.next, depth));
      JoinAssociates(o, t, OutcomeOf(alnum, ParseConcat(alnum, s, t.next, depth)));
    }
  }

  /** At the end of a branch nothing more is joined. */
  lemma JoinStop(alnum: char -> bool, s: string, depth: nat, o: Outcome)
    requires o.Expanded? && Bounded(o) && o.next <= |s| && ConcatStops(s, o.next)
    ensures JoinOutcome(o, OutcomeOf(alnum, ParseConcat(alnum, s, o.next, depth))) == o
  {
    CrossEps(o.alts);
  }

  /** What a quantifier makes of an expanded atom. */
  function Quantified(o: Outcome, single: bool, op: char, next: nat): Outcome {
    if o.Declined? || !single then Declined
    else Expanded(if op == '+' then AppendAny(o.alts) else [[PartAny]], next,
                  o.lossy || !IsSingleOne(o.alts), o.narrowed)
  }

  lemma TermStep(alnum: char -> bool, s: string, i: nat, depth: nat)
    requires i < |s| && !ConcatStops(s, i)
    ensures var a := ParseAtom(alnum, s, i, depth);
            var o := OutcomeOf(alnum, a);
            OutcomeOf(alnum, ParseTerm(alnum, s, i, depth)) ==
            if o.Declined? then Declined
            else if o.next == |s| || !IsQuantifier(s[o.next]) then o
            else Quantified(o, SingleChar(alnum, a.rx), s[o.next],
                            if o.next + 1 < |s| && IsMarker(s[o.next + 1]) then o.next + 2 else o.next + 1)
  {
    hide ParseAtom, OutcomeOf, SingleChar, IsSingleOne;
    var a := ParseAtom(alnum, s, i, depth);
    FailedOutcome(alnum);
    if a.Parsed? {
      var p := WithQuantifier(s, a.rx, a.next);
      assert ParseTerm(alnum, s, i, depth) == p;
      if a.next < |s| && IsQuantifier(s[a.next]) { QuantOutcome(alnum, a, p); }
    }
  }

  lemma FailedOutcome(alnum: char -> bool)
    ensures OutcomeOf(alnum, Failed) == Declined
  {}

  lemma QuantOutcome(alnum: char -> bool, a: Parsed, p: Parsed)
    requires a.Parsed? && p.Parsed? && p.rx.Quant? && p.rx.atom == a.rx
    ensures OutcomeOf(alnum, p) == Quantified(OutcomeOf(alnum, a), SingleChar(alnum, a.rx), p.rx.op, p.next)
  {}

  /** What a group makes of its expanded body. */
  function Grouped(o: Outcome, next: nat): Outcome {
    if o.Declined? then Declined
    else if IsLadder(o.alts) then Expanded([[PartLadder(Branches(o.alts))]], next, o.lossy, true)
    else Expanded(o.alts, next, o.lossy, o.narrowed)
  }

  lemma GroupStep(alnum: char -> bool, s: string, i: nat, depth: nat)
    requires At(s, i, '(') && !(At(s, i + 1, '?') && !At(s, i + 2, ':'))
    ensures var body := ParseAlternation(alnum, s, i + |GroupOpen(s, i)|, depth + 1);
            var p := ParseAtom(alnum, s, i, depth);
            var o := OutcomeOf(alnum, body);
            && (o.Expanded? ==> o.next <= |s|)
            && OutcomeOf(alnum, p) ==
               (if o.Declined? || !At(s, o.next, ')') then Declined else Grouped(o, o.next + 1))
            && (OutcomeOf(alnum, p).Expanded? ==>
                  SingleChar(alnum, p.rx) == (!IsLadder(o.alts) && AllLength1(o.alts)))
  {
    var open := GroupOpen(s, i);
    var body := ParseAlternation(alnum, s, i + |open|, depth + 1);
    if body.Parsed? && At(s, body.next, ')') {
      assert ParseAtom(alnum, s, i, depth) == Parsed(Group(open, body.rx), body.next + 1);
      GroupOutcome(alnum, open, body);
    }
  }

  lemma GroupOutcome(alnum: char -> bool, open: string, body: Parsed)
    requires body.Parsed?
    ensures var p := Parsed(Group(open, body.rx), body.next + 1);
            var o := OutcomeOf(alnum, body);
            && OutcomeOf(alnum, p) == Grouped(o, body.next + 1)
            && (o.Expanded? ==> SingleChar(alnum, p.rx) == (!IsLadder(o.alts) && AllLength1(o.alts)))
  {}

  /** Atoms that are neither groups, classes nor escapes. */
  lemma PlainAtom(alnum: char -> bool, s: string, i: nat, depth: nat)
    requires i < |s| && s[i] != '(' && s[i] != '[' && s[i] != '\\'
    ensures var c, p := s[i], ParseAtom(alnum, s, i, depth);
            if c == '^' || c == '$' || c == '{' || c == '}' then OutcomeOf(alnum, p) == Declined
            else p.Parsed? && SingleChar(alnum, p.rx)
                 && OutcomeOf(alnum, p) == Expanded([[if c == '.' then PartOne else PartLit(c)]], i + 1, false, false)
  {}

  lemma OtherAtom(alnum: char -> bool, s: string, i: nat, depth: nat)
    requires i < |s|
    ensures s[i] == '[' ==> ParseAtom(alnum, s, i, depth) == ParseAtom(alnum, s, i, 0)
    ensures s[i] == '\\' ==> ParseAtom(alnum, s, i, depth) == ParseEscape(alnum, s, i)
    ensures s[i] == '(' && At(s, i + 1, '?') && !At(s, i + 2, ':') ==> ParseAtom(alnum, s, i, depth).Failed?
  {}

  lemma ClassIsSingle(alnum: char -> bool, r: Rx)
    requires r.Class?
    ensures SingleChar(alnum, r)
  {}

  // ------------------------------------------------------------------ the cursor

  class Translator {
    const alnum: char -> bool
    var source: string
    var index: nat
    var lossy: bool
    var narrowed: bool

    constructor (alnum: char -> bool, source: string)
      ensures this.alnum == alnum && this.source == source
      ensures index == 0 && !lossy && !narrowed
    {
      this.alnum, this.source, this.index, this.lossy, this.narrowed := alnum, source, 0, false, false;
    }

    /** The method's answer and the fields after the call, against the outcome
        of reading and expanding from the old cursor. */
    ghost predicate Settled(o: Outcome, r: Option<seq<Parts>>, lossyBefore: bool, narrowedBefore: bool)
      reads this
    {
      match o
      case Declined => r.None?
      case Expanded(alts, next, l, n) =>
        && r == Some(alts) && index == next
        && lossy == (lossyBefore || l) && narrowed == (narrowedBefore || n)
    }

    method ParseAlternationAt(depth: nat) returns (r: Option<seq<Parts>>)
      requires index <= |source|
      modifies this`index, this`lossy, this`narrowed
      ensures Settled(OutcomeOf(alnum, ParseAlternation(alnum, source, old(index), depth)), r, old(lossy), old(narrowed))
      decreases |source| - index, 3
    {
      hide OutcomeOf, ParseConcat, ParseAlternation;
      if depth > MAX_NEST_DEPTH {
        TooDeep(alnum, source, index, depth);
        return None;
      }
      AltUnfold(alnum, source, index, depth);
      ghost var goal := OutcomeOf(alnum, ParseAlternation(alnum, source, index, depth));
      ghost var o := OutcomeOf(alnum, ParseConcat(alnum, source, index, depth));
      r := ParseConcatAt(depth);
      if r.None? { return; }
      var alts := r.value;
      while index < |source| && source[index] == '|'
        invariant old(index) <= index <= |source|
        invariant Settled(o, Some(alts), old(lossy), old(narrowed))
        invariant goal == AltRest(alnum, source, depth, o)
      {
        AltStep(alnum, source, depth, o);
        index := index + 1;
        ghost var c := OutcomeOf(alnum, ParseConcat(alnum, source, index, depth));
        var more := ParseConcatAt(depth);
        if more.None? { return None; }
        alts := alts + more.value;
        if |alts| > MAX_VALUES { return None; }
        o := UnionOutcome(o, c);
      }
      return Some(alts);
    }

    method ParseConcatAt(depth: nat) returns (r: Option<seq<Parts>>)
      requires index <= |source|
      modifies this`index, this`lossy, this`narrowed
      ensures Settled(OutcomeOf(alnum, ParseConcat(alnum, source, old(index), depth)), r, old(lossy), old(narrowed))
      decreases |source| - index, 2
    {
      hide OutcomeOf, ParseConcat, ParseTerm, JoinOutcome, Cross;
      var results: seq<Parts> := [[]];
      ghost var goal := OutcomeOf(alnum, ParseConcat(alnum, source, index, depth));
      ghost var o := Expanded(results, index, false, false);
      OutcomeBounded(alnum, ParseConcat(alnum, source, index, depth));
      JoinUnit(goal, index);
      while index < |source| && source[index] != '|' && source[index] != ')'
        invariant old(index) <= index <= |source|
        invariant Bounded(o) && Settled(o, Some(results), old(lossy), old(narrowed))
        invariant goal == JoinOutcome(o, OutcomeOf(alnum, ParseConcat(alnum, source, index, depth)))
      {
        ConcatFold(alnum, source, depth, o);
        ghost var t := OutcomeOf(alnum, ParseTerm(alnum, source, index, depth));
        var term := ParseTermAt(depth);
        if term.None? { return None; }
        var combined := CrossLoop(results, term.value);
        JoinFold(o, t, OutcomeOf(alnum, ParseConcat(alnum, source, t.next, depth)));
        if |combined| > MAX_VALUES { return None; }
        results := combined;
        o := JoinOutcome(o, t);
      }
      JoinStop(alnum, source, depth, o);
      return Some(results);
    }

    method ParseTermAt(depth: nat) returns (r: Option<seq<Parts>>)
      requires index < |source| && !ConcatStops(source, index)
      modifies this`index, this`lossy, this`narrowed
      ensures Settled(OutcomeOf(alnum, ParseTerm(alnum, source, old(index), depth)), r, old(lossy), old(narrowed))
      decreases |source| - index, 1
    {
      hide OutcomeOf, ParseTerm, ParseAtom, SingleChar, IsSingleOne;
      TermStep(alnum, source, index, depth);
      var single;
      r, single := ParseAtomAt(depth);
      if r.None? { return; }
      if index >= |source| || !IsQuantifier(source[index]) { return; }
      var quantifier := source[index];
      index := index + 1;
      if index < |source| && IsMarker(source[index]) {
        index := index + 1;
      }
      if !single { return None; }
      var alts := r.value;
      if quantifier == '+' {
        var expanded := AppendAnyLoop(alts);
        r := Some(expanded);
      } else {
        r := Some([[PartAny]]);
      }
      if !IsSingleOne(alts) {
        lossy := true;
      }
    }

    method ParseAtomAt(depth: nat) returns (r: Option<seq<Parts>>, single: bool)
      requires index < |source|
      modifies this`index, this`lossy, this`narrowed
      ensures var p := ParseAtom(alnum, source, old(index), depth);
              && Settled(OutcomeOf(alnum, p), r, old(lossy), old(narrowed))
              && (r.Some? ==> single == SingleChar(alnum, p.rx))
      decreases |source| - index, 0
    {
      hide ParseAtom, ParseAlternation, ParseEscape, SingleChar, Expand, Lossy, Narrowed;
      single := true;
      var c := source[index];
      ghost var p := ParseAtom(alnum, source, index, depth);
      OtherAtom(alnum, source, index, depth);
      if c == '(' {
        if At(source, index + 1, '?') && !At(source, index + 2, ':') { return None, false; }
        GroupStep(alnum, source, index, depth);
        ghost var o := OutcomeOf(alnum, ParseAlternation(alnum, source, index + |GroupOpen(source, index)|, depth + 1));
        r, single := ParseGroupAt(depth, o);
      } else if c == '[' {
        r := ParseClassAt();
        if p.Parsed? { ClassIsSingle(alnum, p.rx); }
      } else if c == '\\' {
        r, single := ParseEscapeAt();
      } else if c == '.' {
        PlainAtom(alnum, source, index, depth);
        index := index + 1;
        r := Some([[PartOne]]);
      } else if c == '^' || c == '$' || c == '{' || c == '}' {
        PlainAtom(alnum, source, index, depth);
        r := None;
      } else {
        PlainAtom(alnum, source, index, depth);
        index := index + 1;
        r := Some([[PartLit(c)]]);
      }
    }

    /** The body of a group, from its opening parenthesis. */
    method ParseGroupAt(depth: nat, ghost o: Outcome) returns (r: Option<seq<Parts>>, single: bool)
      requires At(source, index, '(')
      requires o == OutcomeOf(alnum, ParseAlternation(alnum, source, index + |GroupOpen(source, index)|, depth + 1))
      modifies this`index, this`lossy, this`narrowed
      ensures Settled(if o.Declined? || !At(source, o.next, ')') then Declined else Grouped(o, o.next + 1),
                      r, old(lossy), old(narrowed))
      ensures r.Some? ==> o.Expanded? && single == (!IsLadder(o.alts) && AllLength1(o.alts))
      decreases |source| - index, 0, 0
    {
      single := false;
      var open := GroupOpen(source, index);
      index := index + |open|;
      r := ParseAlternationAt(depth + 1);
      if r.None? { return; }
      if index >= |source| || source[index] != ')' { return None, single; }
      index := index + 1;
      var ladder := AsEncodingLadder(r.value);
      if ladder.Some? {
        narrowed := true;
        return Some([[PartLadder(ladder.value)]]), false;
      }
      single := AllLength1Loop(r.value);
    }

    method ParseClassAt() returns (r: Option<seq<Parts>>)
      requires At(source, index, '[')
      modifies this`index, this`lossy
      ensures Settled(OutcomeOf(alnum, ParseAtom(alnum, source, old(index), 0)), r, old(lossy), old(narrowed))
      ensures ParseAtom(alnum, source, old(index), 0).Parsed? ==> ParseAtom(alnum, source, old(index), 0).rx.Class?
    {
      var e := index + 1;
      while e < |source| && source[e] != ']'
        invariant index < e <= |source|
        invariant ClassEnd(source, index + 1) == ClassEnd(source, e)
      {
        e := e + 1;
      }
      if e == |source| { return None; }
      var body := source[index + 1..e];
      index := e + 1;
      if body == "" || body[0] == '^' {
        lossy := true;
        return Some([[PartOne]]);
      }
      var members := EnumerateClass(alnum, body);
      if members.None? || |members.value| > MAX_CLASS_MEMBERS {
        lossy := true;
        return Some([[PartOne]]);
      }
      var alts: seq<Parts> := [];
      for k := 0 to |members.value|
        invariant |alts| == k
        invariant forall j :: 0 <= j < k ==> alts[j] == [PartLit(members.value[j])]
      {
        alts := alts + [[PartLit(members.value[k])]];
      }
      assert alts == Singles(members.value);
      return Some(alts);
    }

    method ParseEscapeAt() returns (r: Option<seq<Parts>>, single: bool)
      requires At(source, index, '\\')
      modifies this`index, this`lossy
      ensures var p := ParseEscape(alnum, source, old(index));
              && Settled(OutcomeOf(alnum, p), r, old(lossy), old(narrowed))
              && (r.Some? ==> single == SingleChar(alnum, p.rx))
    {
      single := true;
      if index + 1 >= |source| { return None, false; }
      var c := source[index + 1];
      index := index + 2;
      if IsShorthand(c) {
        lossy := true;
        return Some([[PartOne]]), true;
      }
      if c == 'b' || c == 'B' {
        lossy := true;
        return Some([[]]), false;
      }
      if IsControlEscape(c) { return Some([[PartLit(ControlChar(c))]]), true; }
      if c == 'x' {
        if index + 2 > |source| { return None, false; }
        var code := ReadHex(source[index], source[index + 1]);
        if code.None? { return None, false; }
        index := index + 2;
        return Some([[PartLit(code.value)]]), true;
      }
      if alnum(c) { return None, false; }
      return Some([[PartLit(c)]]), true;
    }
  }
}
