/** Reading and printing regex texts are inverse: every text the translator
    reads is the print of the tree it reads, and every well-formed tree is read
    back from its own text, so a text has exactly one tree. */
module RegexReading {
  import opened Options
  import opened RegexSyntax

  // --------------------------------------------------------- occurrence of text

  predicate Has(s: string, i: nat, t: string) {
    i + |t| <= |s| && s[i..i + |t|] == t
  }

  lemma HasConcat(s: string, i: nat, a: string, b: string)
    ensures Has(s, i, a + b) <==> Has(s, i, a) && Has(s, i + |a|, b)
  {
    if i + |a| + |b| <= |s| {
      var u := s[i..i + |a| + |b|];
      assert u == s[i..i + |a|] + s[i + |a|..i + |a| + |b|];
      assert u[..|a|] == s[i..i + |a|] && u[|a|..] == s[i + |a|..i + |a| + |b|];
      assert (a + b)[..|a|] == a && (a + b)[|a|..] == b;
    }
  }

  lemma HasChar(s: string, i: nat, c: char)
    ensures Has(s, i, [c]) <==> At(s, i, c)
  {
    if i < |s| {
      assert s[i..i + 1] == [s[i]];
    }
  }

  /** Two texts joined by one character. */
  lemma HasJoin(s: string, i: nat, a: string, c: char, b: string)
    ensures Has(s, i, a + [c] + b) <==> Has(s, i, a) && At(s, i + |a|, c) && Has(s, i + |a| + 1, b)
  {
    HasConcat(s, i, a + [c], b);
    HasConcat(s, i, a, [c]);
    HasChar(s, i + |a|, c);
  }

  /** A text in brackets. */
  lemma HasBrackets(s: string, i: nat, open: string, b: string, close: char)
    ensures Has(s, i, open + b + [close]) <==>
            Has(s, i, open) && Has(s, i + |open|, b) && At(s, i + |open| + |b|, close)
  {
    HasConcat(s, i, open + b, [close]);
    HasConcat(s, i, open, b);
    HasChar(s, i + |open| + |b|, close);
  }

  lemma HasFirst(s: string, i: nat, t: string)
    requires Has(s, i, t) && t != ""
    ensures i < |s| && s[i] == t[0]
  {}

  // ------------------------------------------------------------ well-formedness

  predicate WfAlternation(alnum: char -> bool, r: Rx, depth: nat)
    decreases r, 3
  {
    depth <= MAX_NEST_DEPTH &&
    if r.Or? then WfConcat(alnum, r.left, depth) && WfAlternation(alnum, r.right, depth)
    else WfConcat(alnum, r, depth)
  }

  /** How deep groups stand in groups. */
  function Nesting(r: Rx): nat {
    match r
    case Seq(h, t) => if Nesting(h) > Nesting(t) then Nesting(h) else Nesting(t)
    case Or(l, rt) => if Nesting(l) > Nesting(rt) then Nesting(l) else Nesting(rt)
    case Quant(a, _, _) => Nesting(a)
    case Group(_, b) => 1 + Nesting(b)
    case _ => 0
  }

  /** No text with deeper groups than eight is read. */
  lemma {:induction false} NestingBounded(alnum: char -> bool, r: Rx, depth: nat)
    requires WfAlternation(alnum, r, depth)
    ensures depth + Nesting(r) <= 8
    decreases r, 3
  {
    if r.Or? {
      ConcatBounded(alnum, r.left, depth);
      NestingBounded(alnum, r.right, depth);
    } else {
      ConcatBounded(alnum, r, depth);
    }
  }

  lemma {:induction false} ConcatBounded(alnum: char -> bool, r: Rx, depth: nat)
    requires WfConcat(alnum, r, depth) && depth <= 8
    ensures depth + Nesting(r) <= 8
    decreases r, 2
  {
    if r.Seq? {
      TermBounded(alnum, r.head, depth);
      ConcatBounded(alnum, r.tail, depth);
    }
  }

  lemma {:induction false} TermBounded(alnum: char -> bool, r: Rx, depth: nat)
    requires WfTerm(alnum, r, depth) && depth <= 8
    ensures depth + Nesting(r) <= 8
    decreases r, 1
  {
    var atom := if r.Quant? then r.atom else r;
    assert WfAtom(alnum, atom, depth);
    if atom.Group? { NestingBounded(alnum, atom.body, depth + 1); }
  }

  predicate WfConcat(alnum: char -> bool, r: Rx, depth: nat)
    decreases r, 2
  {
    match r
    case Eps => true
    case Seq(h, t) => WfTerm(alnum, h, depth) && WfConcat(alnum, t, depth) && !Swallows(h, Print(t))
    case _ => false
  }

  /** The first character of `after` would be read as part of term `h`. */
  predicate Swallows(h: Rx, after: string) {
    after != "" &&
    if h.Quant? then h.marker == "" && IsMarker(after[0]) else IsQuantifier(after[0])
  }

  predicate WfTerm(alnum: char -> bool, r: Rx, depth: nat)
    decreases r, 1
  {
    if r.Quant? then
      && WfAtom(alnum, r.atom, depth) && IsQuantifier(r.op)
      && (r.marker == "" || (|r.marker| == 1 && IsMarker(r.marker[0])))
    else WfAtom(alnum, r, depth)
  }

  predicate WfAtom(alnum: char -> bool, r: Rx, depth: nat)
    decreases r, 0
  {
    match r
    case Group(open, b) =>
      && WfAlternation(alnum, b, depth + 1)
      && (open == "(?:" || (open == "(" && !(Print(b) != "" && Print(b)[0] == '?')))
    case Class(items) => ']' !in items
    case Escape(c) => IsShorthand(c) || c == 'b' || c == 'B' || IsControlEscape(c) || (c != 'x' && !alnum(c))
    case Hex(hi, lo) => ReadHex(hi, lo).Some?
    case Dot => true
    case Lit(c) => c !in "([\\.^${}|)"
    case _ => false
  }

  // ------------------------------------------------------ what is read is printed

  /** Whatever is read at position i is well formed, and its print is exactly
      the text consumed. */
  lemma {:induction false} AlternationRead(alnum: char -> bool, s: string, i: nat, depth: nat)
    requires i <= |s|
    ensures var p := ParseAlternation(alnum, s, i, depth);
            p.Parsed? ==> WfAlternation(alnum, p.rx, depth) && |Print(p.rx)| == p.next - i && Has(s, i, Print(p.rx))
    decreases |s| - i, 3
  {
    hide Has, ParseConcat, WfConcat;
    if depth <= MAX_NEST_DEPTH {
      ConcatRead(alnum, s, i, depth);
      var first := ParseConcat(alnum, s, i, depth);
      if first.Parsed? && At(s, first.next, '|') {
        AlternationRead(alnum, s, first.next + 1, depth);
        var rest := ParseAlternation(alnum, s, first.next + 1, depth);
        if rest.Parsed? {
          HasJoin(s, i, Print(first.rx), '|', Print(rest.rx));
        }
      }
    }
  }

  lemma {:induction false} ConcatRead(alnum: char -> bool, s: string, i: nat, depth: nat)
    requires i <= |s|
    ensures var p := ParseConcat(alnum, s, i, depth);
            p.Parsed? ==>
              && WfConcat(alnum, p.rx, depth) && !p.rx.Or?
              && |Print(p.rx)| == p.next - i && Has(s, i, Print(p.rx))
    decreases |s| - i, 2
  {
    if !ConcatStops(s, i) {
      hide WfTerm, Swallows, ParseTerm, ConcatStops;
      TermRead(alnum, s, i, depth);
      var term := ParseTerm(alnum, s, i, depth);
      if term.Parsed? {
        ConcatRead(alnum, s, term.next, depth);
        var rest := ParseConcat(alnum, s, term.next, depth);
        if rest.Parsed? {
          HasConcat(s, i, Print(term.rx), Print(rest.rx));
          if Print(rest.rx) != "" {
            assert Print(rest.rx)[0] == s[term.next];
          }
          SwallowsFirst(term.rx, Print(rest.rx));
        }
      }
    }
  }

  /** Whether a term swallows what follows is decided by its first character. */
  lemma SwallowsFirst(h: Rx, after: string)
    ensures after == "" ==> !Swallows(h, after)
    ensures after != "" ==> (Swallows(h, after) <==> Swallows(h, [after[0]]))
  {}

  /** A term that ends before another character never swallows that character. */
  lemma {:induction false} TermRead(alnum: char -> bool, s: string, i: nat, depth: nat)
    requires i < |s| && !ConcatStops(s, i)
    ensures var p := ParseTerm(alnum, s, i, depth);
            p.Parsed? ==>
              && WfTerm(alnum, p.rx, depth)
              && |Print(p.rx)| == p.next - i && Has(s, i, Print(p.rx))
              && (p.next < |s| ==> !Swallows(p.rx, [s[p.next]]))
    decreases |s| - i, 1
  {
    AtomRead(alnum, s, i, depth);
    var atom := ParseAtom(alnum, s, i, depth);
    if atom.Parsed? {
      QuantifierRead(s, atom.rx, i, atom.next);
    }
  }

  lemma QuantifierRead(s: string, atom: Rx, i: nat, j: nat)
    requires i <= j <= |s| && j - i == |Print(atom)| && Has(s, i, Print(atom)) && !atom.Quant?
    ensures var p := WithQuantifier(s, atom, j);
            && |Print(p.rx)| == p.next - i && Has(s, i, Print(p.rx))
            && (p.next < |s| ==> !Swallows(p.rx, [s[p.next]]))
  {
    var text := Print(atom);
    if j < |s| && IsQuantifier(s[j]) {
      HasChar(s, j, s[j]);
      HasConcat(s, i, text, [s[j]]);
      if j + 1 < |s| && IsMarker(s[j + 1]) {
        HasChar(s, j + 1, s[j + 1]);
        HasConcat(s, i, text + [s[j]], [s[j + 1]]);
      } else {
        assert text + [s[j]] + "" == text + [s[j]];
      }
    }
  }

  lemma {:induction false} AtomRead(alnum: char -> bool, s: string, i: nat, depth: nat)
    requires i < |s| && !ConcatStops(s, i)
    ensures var p := ParseAtom(alnum, s, i, depth);
            p.Parsed? ==>
              && WfAtom(alnum, p.rx, depth) && !p.rx.Quant?
              && |Print(p.rx)| == p.next - i && Has(s, i, Print(p.rx))
    decreases |s| - i, 0
  {
    var c := s[i];
    HasChar(s, i, c);
    if c == '(' {
      GroupRead(alnum, s, i, depth);
    } else if c == '[' {
      ClassRead(alnum, s, i, depth);
    } else if c == '\\' {
      EscapeRead(alnum, s, i, depth);
    }
  }

  lemma {:induction false} GroupRead(alnum: char -> bool, s: string, i: nat, depth: nat)
    requires At(s, i, '(')
    ensures var p := ParseAtom(alnum, s, i, depth);
            p.Parsed? ==> WfAtom(alnum, p.rx, depth) && p.rx.Group? && |Print(p.rx)| == p.next - i && Has(s, i, Print(p.rx))
    decreases |s| - i, 0, 0
  {
    hide Has, ParseAlternation, WfAlternation;
    if !(At(s, i + 1, '?') && !At(s, i + 2, ':')) {
      var open := GroupOpen(s, i);
      var k := i + |open|;
      AlternationRead(alnum, s, k, depth + 1);
      var body := ParseAlternation(alnum, s, k, depth + 1);
      if body.Parsed? && At(s, body.next, ')') {
        GroupText(s, i, open, Print(body.rx));
      }
    }
  }

  lemma GroupText(s: string, i: nat, open: string, text: string)
    requires Has(s, i, open) && Has(s, i + |open|, text) && At(s, i + |open| + |text|, ')')
    ensures Has(s, i, open + text + ")")
    ensures text != "" ==> text[0] == s[i + |open|]
  {
    HasBrackets(s, i, open, text, ')');
    if text != "" { HasFirst(s, i + |open|, text); }
  }

  lemma ClassRead(alnum: char -> bool, s: string, i: nat, depth: nat)
    requires At(s, i, '[')
    ensures var p := ParseAtom(alnum, s, i, depth);
            p.Parsed? ==> WfAtom(alnum, p.rx, depth) && p.rx.Class? && |Print(p.rx)| == p.next - i && Has(s, i, Print(p.rx))
  {
    var e := ClassEnd(s, i + 1);
    if e < |s| {
      var items := s[i + 1..e];
      HasChar(s, i, '[');
      HasBrackets(s, i, "[", items, ']');
    }
  }

  lemma EscapeRead(alnum: char -> bool, s: string, i: nat, depth: nat)
    requires At(s, i, '\\')
    ensures var p := ParseEscape(alnum, s, i);
            p.Parsed? ==>
              && WfAtom(alnum, p.rx, depth) && (p.rx.Escape? || p.rx.Hex?)
              && |Print(p.rx)| == p.next - i && Has(s, i, Print(p.rx))
  {
    if i + 1 < |s| {
      HasChar(s, i, '\\');
      HasChar(s, i + 1, s[i + 1]);
      HasConcat(s, i, "\\", [s[i + 1]]);
      if s[i + 1] == 'x' && i + 4 <= |s| {
        assert s[i + 2..i + 4] == [s[i + 2], s[i + 3]];
        HasConcat(s, i, "\\x", [s[i + 2], s[i + 3]]);
      }
    }
  }

  // ------------------------------------------------------ what is printed is read

  lemma {:induction false} AlternationPrinted(alnum: char -> bool, r: Rx, s: string, i: nat, depth: nat)
    requires WfAlternation(alnum, r, depth)
    requires Has(s, i, Print(r))
    requires i + |Print(r)| == |s| || s[i + |Print(r)|] == ')'
    ensures ParseAlternation(alnum, s, i, depth) == Parsed(r, i + |Print(r)|)
    decreases r, 3
  {
    hide Has, ParseConcat, WfConcat;
    if r.Or? {
      var l := Print(r.left);
      HasJoin(s, i, l, '|', Print(r.right));
      ConcatPrinted(alnum, r.left, s, i, depth);
      AlternationPrinted(alnum, r.right, s, i + |l| + 1, depth);
    } else {
      ConcatPrinted(alnum, r, s, i, depth);
    }
  }

  lemma {:induction false} ConcatPrinted(alnum: char -> bool, r: Rx, s: string, i: nat, depth: nat)
    requires WfConcat(alnum, r, depth)
    requires Has(s, i, Print(r)) && ConcatStops(s, i + |Print(r)|)
    ensures ParseConcat(alnum, s, i, depth) == Parsed(r, i + |Print(r)|)
    decreases r, 2
  {
    hide *;
    SeqParts(alnum, r, depth);
    if r == Eps {
      NothingMore(alnum, s, i, depth);
    } else {
      var h, t := Print(r.head), Print(r.tail);
      var k := i + |h|;
      HasConcat(s, i, h, t);
      TermStarts(alnum, r.head, depth);
      NotAtStop(s, i, h);
      HeadFollowed(r.head, s, k, t);
      TermPrinted(alnum, r.head, s, i, depth);
      ConcatPrinted(alnum, r.tail, s, k, depth);
      OneMoreTerm(alnum, s, i, depth, r, k, k + |t|);
    }
  }

  /** A branch is empty, or a term before a branch it does not swallow. */
  lemma SeqParts(alnum: char -> bool, r: Rx, depth: nat)
    requires WfConcat(alnum, r, depth)
    ensures r == Eps || r.Seq?
    ensures r == Eps ==> Print(r) == ""
    ensures r.Seq? ==>
              && WfTerm(alnum, r.head, depth) && WfConcat(alnum, r.tail, depth) && !Swallows(r.head, Print(r.tail))
              && Print(r) == Print(r.head) + Print(r.tail)
  {
    hide WfTerm, Swallows;
  }

  lemma NotAtStop(s: string, i: nat, h: string)
    requires Has(s, i, h) && h != "" && h[0] != '|' && h[0] != ')'
    ensures i < |s| && i + |h| <= |s| && !ConcatStops(s, i)
  {}

  /** What follows a term is not taken for its quantifier. */
  lemma HeadFollowed(h: Rx, s: string, k: nat, t: string)
    requires Has(s, k, t) && !Swallows(h, t) && ConcatStops(s, k + |t|)
    ensures k < |s| ==> !Swallows(h, [s[k]])
  {
    if t != "" { HasFirst(s, k, t); }
  }

  lemma NothingMore(alnum: char -> bool, s: string, i: nat, depth: nat)
    requires Has(s, i, "") && ConcatStops(s, i)
    ensures i <= |s|
    ensures ParseConcat(alnum, s, i, depth) == Parsed(Eps, i)
  {}

  lemma OneMoreTerm(alnum: char -> bool, s: string, i: nat, depth: nat, r: Rx, k: nat, n: nat)
    requires i < |s| && !ConcatStops(s, i) && k <= |s| && r.Seq?
    requires ParseTerm(alnum, s, i, depth) == Parsed(r.head, k) && ParseConcat(alnum, s, k, depth) == Parsed(r.tail, n)
    ensures ParseConcat(alnum, s, i, depth) == Parsed(r, n)
  {
    hide ParseTerm;
  }

  /** A term's text is not empty and cannot be taken for the end of a branch. */
  lemma TermStarts(alnum: char -> bool, r: Rx, depth: nat)
    requires WfTerm(alnum, r, depth)
    ensures Print(r) != "" && Print(r)[0] != '|' && Print(r)[0] != ')'
  {
    var a := if r.Quant? then r.atom else r;
    match a
    case Group(_, _) =>
    case Class(_) =>
    case Escape(_) =>
    case Hex(_, _) =>
    case Dot =>
    case Lit(_) =>
  }

  lemma {:induction false} TermPrinted(alnum: char -> bool, r: Rx, s: string, i: nat, depth: nat)
    requires WfTerm(alnum, r, depth)
    requires i < |s| && !ConcatStops(s, i)
    requires Has(s, i, Print(r))
    requires i + |Print(r)| < |s| ==> !Swallows(r, [s[i + |Print(r)|]])
    ensures ParseTerm(alnum, s, i, depth) == Parsed(r, i + |Print(r)|)
    decreases r, 1
  {
    hide ParseAtom, WfAtom;
    if r.Quant? {
      var a := Print(r.atom);
      var j := i + |a|;
      HasConcat(s, i, a + [r.op], r.marker);
      HasConcat(s, i, a, [r.op]);
      HasChar(s, j, r.op);
      AtomPrinted(alnum, r.atom, s, i, depth);
      if r.marker != "" {
        assert r.marker == [r.marker[0]];
        HasChar(s, j + 1, r.marker[0]);
      } else if j + 1 < |s| {
        assert |Print(r)| == |a| + 1;
      }
    } else {
      AtomPrinted(alnum, r, s, i, depth);
    }
  }

  lemma {:induction false} AtomPrinted(alnum: char -> bool, r: Rx, s: string, i: nat, depth: nat)
    requires WfAtom(alnum, r, depth)
    requires i < |s| && Has(s, i, Print(r))
    ensures ParseAtom(alnum, s, i, depth) == Parsed(r, i + |Print(r)|)
    decreases r, 0
  {
    match r
    case Group(open, b) => GroupPrinted(alnum, r, s, i, depth);
    case Class(items) => ClassPrinted(items, s, i);
    case Escape(c) =>
      HasConcat(s, i, "\\", [c]);
      HasChar(s, i, '\\');
      HasChar(s, i + 1, c);
    case Hex(hi, lo) => HexPrinted(hi, lo, s, i);
    case Dot => HasChar(s, i, '.');
    case Lit(c) => HasChar(s, i, c);
  }

  lemma {:induction false} GroupPrinted(alnum: char -> bool, r: Rx, s: string, i: nat, depth: nat)
    requires r.Group? && WfAtom(alnum, r, depth)
    requires i < |s| && Has(s, i, Print(r))
    ensures ParseAtom(alnum, s, i, depth) == Parsed(r, i + |Print(r)|)
    decreases r, 0, 0
  {
    hide ParseAtom, ParseAlternation, WfAlternation, Has;
    var open, text := r.open, Print(r.body);
    HasBrackets(s, i, open, text, ')');
    OpenIsRead(s, i, open, text);
    AlternationPrinted(alnum, r.body, s, i + |open|, depth + 1);
    GroupParsed(alnum, s, i, depth, open, Parsed(r.body, i + |open| + |text|));
  }

  lemma GroupParsed(alnum: char -> bool, s: string, i: nat, depth: nat, open: string, body: Parsed)
    requires At(s, i, '(') && !(At(s, i + 1, '?') && !At(s, i + 2, ':')) && GroupOpen(s, i) == open
    requires ParseAlternation(alnum, s, i + |open|, depth + 1) == body && body.Parsed? && At(s, body.next, ')')
    ensures ParseAtom(alnum, s, i, depth) == Parsed(Group(open, body.rx), body.next + 1)
  {}

  lemma OpenIsRead(s: string, i: nat, open: string, text: string)
    requires Has(s, i, open) && Has(s, i + |open|, text) && At(s, i + |open| + |text|, ')')
    requires open == "(?:" || (open == "(" && !(text != "" && text[0] == '?'))
    ensures At(s, i, '(') && !(At(s, i + 1, '?') && !At(s, i + 2, ':')) && GroupOpen(s, i) == open
  {
    assert s[i] == open[0];
    if open == "(?:" {
      assert s[i + 1] == open[1] && s[i + 2] == open[2];
    } else if text != "" {
      HasFirst(s, i + 1, text);
    }
  }

  lemma ClassPrinted(items: string, s: string, i: nat)
    requires ']' !in items && Has(s, i, "[" + items + "]")
    ensures At(s, i, '[') && ClassEnd(s, i + 1) == i + 1 + |items| < |s|
    ensures s[i + 1..i + 1 + |items|] == items
  {
    HasBrackets(s, i, "[", items, ']');
    HasChar(s, i, '[');
    var e := i + 1 + |items|;
    forall k | i + 1 <= k < e ensures s[k] != ']' {
      assert s[k] == items[k - i - 1];
    }
    FirstClose(s, i + 1, e);
  }

  lemma HexPrinted(hi: char, lo: char, s: string, i: nat)
    requires Has(s, i, "\\x" + [hi, lo])
    ensures i + 4 <= |s| && s[i] == '\\' && s[i + 1] == 'x' && s[i + 2] == hi && s[i + 3] == lo
  {
    HasConcat(s, i, "\\x", [hi, lo]);
    HasConcat(s, i, "\\", "x");
    HasChar(s, i, '\\');
    HasChar(s, i + 1, 'x');
    assert s[i + 2] == [hi, lo][0] && s[i + 3] == [hi, lo][1];
  }

  lemma FirstClose(s: string, i: nat, e: nat)
    requires i <= e < |s| && s[e] == ']'
    requires forall k :: i <= k < e ==> s[k] != ']'
    ensures ClassEnd(s, i) == e
  {
  }

  /** A text has at most one well-formed tree. */
  lemma PrintIsInjective(alnum: char -> bool, a: Rx, b: Rx)
    requires WfAlternation(alnum, a, 0) && WfAlternation(alnum, b, 0)
    requires Print(a) == Print(b)
    ensures a == b
  {
    AlternationPrinted(alnum, a, Print(a), 0, 0);
    AlternationPrinted(alnum, b, Print(a), 0, 0);
  }

  /** A text is accepted by the reader exactly when it is the text of a
      well-formed tree, and then that tree is the one read. */
  lemma ReadingIsExact(alnum: char -> bool, s: string, r: Rx)
    ensures ParseAlternation(alnum, s, 0, 0) == Parsed(r, |s|) <==> WfAlternation(alnum, r, 0) && Print(r) == s
  {
    AlternationRead(alnum, s, 0, 0);
    if WfAlternation(alnum, r, 0) && Print(r) == s {
      AlternationPrinted(alnum, r, s, 0, 0);
    }
    assert s[0..|s|] == s;
  }
}
