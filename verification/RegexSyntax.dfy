/** The regex texts the compiler reads, as concrete syntax trees.

    `Print` gives back the exact text of a tree.  `ParseAlternation` and its
    helpers read a text from a cursor position, the way the recursive-descent
    translator walks it.
 */
module RegexSyntax {
  import opened Options

  const MAX_NEST_DEPTH := 8

  datatype Rx =
    | Eps
    | Seq(head: Rx, tail: Rx)
    | Or(left: Rx, right: Rx)
    | Quant(atom: Rx, op: char, marker: string)
    | Group(open: string, body: Rx)
    | Class(items: string)
    | Escape(c: char)
    | Hex(hi: char, lo: char)
    | Dot
    | Lit(c: char)
    | Start
    | End

  function Print(r: Rx): string {
    match r
    case Eps => ""
    case Seq(h, t) => Print(h) + Print(t)
    case Or(l, rt) => Print(l) + "|" + Print(rt)
    case Quant(a, op, m) => Print(a) + [op] + m
    case Group(open, b) => open + Print(b) + ")"
    case Class(items) => "[" + items + "]"
    case Escape(c) => "\\" + [c]
    case Hex(hi, lo) => "\\x" + [hi, lo]
    case Dot => "."
    case Lit(c) => [c]
    case Start => "^"
    case End => "$"
  }

  // -------------------------------------------------------------- characters

  predicate IsQuantifier(c: char) { c == '*' || c == '+' || c == '?' }

  predicate IsMarker(c: char) { c == '?' || c == '+' }

  predicate IsShorthand(c: char) { c in "sSdDwW" }

  predicate IsControlEscape(c: char) { c in "nrtfv" }

  /** The character an `\n`-style escape stands for. */
  function ControlChar(c: char): char
    requires IsControlEscape(c)
  {
    if c == 'n' then 10 as char
    else if c == 'r' then 13 as char
    else if c == 't' then 9 as char
    else if c == 'f' then 12 as char
    else 11 as char
  }

  function HexDigitValue(c: char): (v: int)
    ensures -1 <= v < 16
  {
    if '0' <= c <= '9' then c as int - '0' as int
    else if 'a' <= c <= 'f' then c as int - 'a' as int + 10
    else if 'A' <= c <= 'F' then c as int - 'A' as int + 10
    else -1
  }

  const REPLACEMENT: char := 0xFFFD as char

  /** The rune read from the two characters after `\x`: a base-16 integer
      parser that also takes a sign.  A negative rune is written as the
      replacement character. */
  function ReadHex(hi: char, lo: char): Option<char> {
    var l := HexDigitValue(lo);
    if l < 0 then None
    else if hi == '+' then Some(l as char)
    else if hi == '-' then Some(if l == 0 then 0 as char else REPLACEMENT)
    else if HexDigitValue(hi) < 0 then None
    else Some((HexDigitValue(hi) * 16 + l) as char)
  }

  // ------------------------------------------------------------------ parser

  datatype Parsed = Failed | Parsed(rx: Rx, next: nat)

  predicate At(s: string, i: nat, c: char) {
    i < |s| && s[i] == c
  }

  /** Position of the first `]` at or after i, or |s|. */
  function ClassEnd(s: string, i: nat): (e: nat)
    requires i <= |s|
    ensures i <= e <= |s|
    ensures e < |s| ==> s[e] == ']'
    ensures forall k :: i <= k < e ==> s[k] != ']'
    decreases |s| - i
  {
    if i == |s| || s[i] == ']' then i else ClassEnd(s, i + 1)
  }

  function ParseAlternation(alnum: char -> bool, s: string, i: nat, depth: nat): (p: Parsed)
    requires i <= |s|
    ensures p.Parsed? ==> i <= p.next <= |s|
    decreases |s| - i, 3
  {
    if depth > MAX_NEST_DEPTH then Failed
    else
      var first := ParseConcat(alnum, s, i, depth);
      if first.Failed? || !At(s, first.next, '|') then first
      else
        var rest := ParseAlternation(alnum, s, first.next + 1, depth);
        if rest.Failed? then Failed else Parsed(Or(first.rx, rest.rx), rest.next)
  }

  predicate ConcatStops(s: string, i: nat) {
    i >= |s| || s[i] == '|' || s[i] == ')'
  }

  function ParseConcat(alnum: char -> bool, s: string, i: nat, depth: nat): (p: Parsed)
    requires i <= |s|
    ensures p.Parsed? ==> i <= p.next <= |s| && ConcatStops(s, p.next)
    decreases |s| - i, 2
  {
    if ConcatStops(s, i) then Parsed(Eps, i)
    else
      var term := ParseTerm(alnum, s, i, depth);
      if term.Failed? then Failed
      else
        var rest := ParseConcat(alnum, s, term.next, depth);
        if rest.Failed? then Failed else Parsed(Seq(term.rx, rest.rx), rest.next)
  }

  /** Reads the quantifier, if any, that follows an atom. */
  function WithQuantifier(s: string, atom: Rx, j: nat): (p: Parsed)
    requires j <= |s|
    ensures p.Parsed? && j <= p.next <= |s|
  {
    if j == |s| || !IsQuantifier(s[j]) then Parsed(atom, j)
    else if j + 1 < |s| && IsMarker(s[j + 1]) then Parsed(Quant(atom, s[j], [s[j + 1]]), j + 2)
    else Parsed(Quant(atom, s[j], ""), j + 1)
  }

  function ParseTerm(alnum: char -> bool, s: string, i: nat, depth: nat): (p: Parsed)
    requires i < |s| && !ConcatStops(s, i)
    ensures p.Parsed? ==> i < p.next <= |s|
    decreases |s| - i, 1
  {
    var atom := ParseAtom(alnum, s, i, depth);
    if atom.Failed? then Failed else WithQuantifier(s, atom.rx, atom.next)
  }

  function GroupOpen(s: string, i: nat): (open: string)
    requires At(s, i, '(')
    ensures |open| == 1 || |open| == 3
    ensures i + |open| <= |s| && s[i..i + |open|] == open
  {
    if At(s, i + 1, '?') && At(s, i + 2, ':') then assert s[i..i + 3] == "(?:"; "(?:" else "("
  }

  function ParseAtom(alnum: char -> bool, s: string, i: nat, depth: nat): (p: Parsed)
    requires i < |s|
    ensures p.Parsed? ==> i < p.next <= |s|
    decreases |s| - i, 0
  {
    var c := s[i];
    if c == '(' then
      if At(s, i + 1, '?') && !At(s, i + 2, ':') then Failed
      else
        var open := GroupOpen(s, i);
        var body := ParseAlternation(alnum, s, i + |open|, depth + 1);
        if body.Failed? || !At(s, body.next, ')') then Failed
        else Parsed(Group(open, body.rx), body.next + 1)
    else if c == '[' then
      var e := ClassEnd(s, i + 1);
      if e == |s| then Failed else Parsed(Class(s[i + 1..e]), e + 1)
    else if c == '\\' then ParseEscape(alnum, s, i)
    else if c == '.' then Parsed(Dot, i + 1)
    else if c == '^' || c == '$' || c == '{' || c == '}' then Failed
    else Parsed(Lit(c), i + 1)
  }

  function ParseEscape(alnum: char -> bool, s: string, i: nat): (p: Parsed)
    requires i < |s|
    ensures p.Parsed? ==> i < p.next <= |s|
  {
    if i + 1 >= |s| then Failed
    else
      var c := s[i + 1];
      if IsShorthand(c) || c == 'b' || c == 'B' || IsControlEscape(c) then Parsed(Escape(c), i + 2)
      else if c == 'x' then
        if i + 4 > |s| || ReadHex(s[i + 2], s[i + 3]).None? then Failed
        else Parsed(Hex(s[i + 2], s[i + 3]), i + 4)
      else if alnum(c) then Failed
      else Parsed(Escape(c), i + 2)
  }
}
