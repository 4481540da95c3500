/** The wildcard image of a regex: parse, then expand.

    A regex becomes a finite list of part sequences; each is rendered as a
    value in which `*` is any run and `?` is one character.  These functions
    are the specification the cursor-style translator is proved against. */
module Expansion {
  import opened Options
  import opened RegexSyntax
  import opened PercentEncoding

  const MAX_VALUES := 32
  const MAX_CLASS_MEMBERS := 8
  const MAX_REGEX_LENGTH := 4096

  /** A ladder is one literal at several recursive URL-encoding depths; it
      renders as the rung of the depth being emitted. */
  datatype Part = PartLit(c: char) | PartAny | PartOne | PartLadder(rungs: seq<string>)

  type Parts = seq<Part>

  // ------------------------------------------------------------------ classes

  function CharRange(lo: char, hi: char): (out: seq<char>)
    requires lo <= hi && hi as int - lo as int < MAX_CLASS_MEMBERS
    ensures forall c :: c in out <==> lo <= c <= hi
    decreases hi as int - lo as int
  {
    if lo == hi then [hi]
    else
      assert (hi as int) - 1 < 0xD800 || (hi as int) - 1 >= 0xE000;
      CharRange(lo, (hi as int - 1) as char) + [hi]
  }

  /** What one escape contributes to a class, or None where the class cannot be
      enumerated. */
  function EscapeMember(alnum: char -> bool, f: char): Option<char> {
    if IsShorthand(f) || alnum(f) then if IsControlEscape(f) then Some(ControlChar(f)) else None
    else Some(f)
  }

  function Members(alnum: char -> bool, s: string, i: nat): Option<seq<char>>
    requires i <= |s|
    decreases |s| - i
  {
    if i == |s| then Some([])
    else if s[i] == '\\' then
      if i + 1 == |s| then None
      else match EscapeMember(alnum, s[i + 1])
        case None => None
        case Some(c) => Cons([c], Members(alnum, s, i + 2))
    else if i + 2 < |s| && s[i + 1] == '-' then
      if s[i + 2] < s[i] || s[i + 2] as int - s[i] as int >= MAX_CLASS_MEMBERS then None
      else Cons(CharRange(s[i], s[i + 2]), Members(alnum, s, i + 3))
    else Cons([s[i]], Members(alnum, s, i + 1))
  }

  function Cons(front: seq<char>, rest: Option<seq<char>>): Option<seq<char>> {
    match rest
    case None => None
    case Some(chars) => Some(front + chars)
  }

  function Enumerate(alnum: char -> bool, s: string): Option<seq<char>> {
    match Members(alnum, s, 0)
    case None => None
    case Some(chars) => if chars == [] then None else Some(Unique(chars))
  }

  predicate ClassLossy(alnum: char -> bool, items: string) {
    || items == "" || items[0] == '^' || Enumerate(alnum, items).None?
    || |Enumerate(alnum, items).value| > MAX_CLASS_MEMBERS
  }

  function Singles(members: seq<char>): (alts: seq<Parts>)
    ensures |alts| == |members|
    ensures forall k :: 0 <= k < |alts| ==> alts[k] == [PartLit(members[k])]
  {
    seq(|members|, k requires 0 <= k < |members| => [PartLit(members[k])])
  }

  function ClassParts(alnum: char -> bool, items: string): seq<Parts> {
    if ClassLossy(alnum, items) then [[PartOne]] else Singles(Enumerate(alnum, items).value)
  }

  // ------------------------------------------------------------------ products

  function Prepend(p: Parts, b: seq<Parts>): (out: seq<Parts>)
    ensures |out| == |b|
    ensures forall k :: 0 <= k < |b| ==> out[k] == p + b[k]
  {
    seq(|b|, k requires 0 <= k < |b| => p + b[k])
  }

  function Cross(a: seq<Parts>, b: seq<Parts>): (out: seq<Parts>)
    ensures |out| == |a| * |b|
  {
    if a == [] then []
    else
      assert |a| * |b| == |b| + (|a| - 1) * |b|;
      Prepend(a[0], b) + Cross(a[1..], b)
  }

  function AppendAny(a: seq<Parts>): (out: seq<Parts>)
    ensures |out| == |a|
    ensures forall k :: 0 <= k < |a| ==> out[k] == a[k] + [PartAny]
  {
    seq(|a|, k requires 0 <= k < |a| => a[k] + [PartAny])
  }

  predicate AllLength1(a: seq<Parts>) {
    forall k :: 0 <= k < |a| ==> |a[k]| == 1
  }

  predicate IsSingleOne(a: seq<Parts>) {
    |a| == 1 && |a[0]| == 1 && a[0][0].PartOne?
  }

  // ------------------------------------------------------------------- ladders

  predicate IsLiteral(p: Parts) {
    forall k :: 0 <= k < |p| ==> p[k].PartLit?
  }

  function LiteralText(p: Parts): (t: string)
    requires IsLiteral(p)
    ensures |t| == |p|
    ensures forall k :: 0 <= k < |p| ==> t[k] == p[k].c
  {
    seq(|p|, k requires 0 <= k < |p| => p[k].c)
  }

  predicate AllLiteral(a: seq<Parts>) {
    forall k :: 0 <= k < |a| ==> IsLiteral(a[k]) && a[k] != []
  }

  function Branches(a: seq<Parts>): (out: seq<string>)
    requires AllLiteral(a)
    ensures |out| == |a|
    ensures forall k :: 0 <= k < |a| ==> out[k] == LiteralText(a[k])
  {
    seq(|a|, k requires 0 <= k < |a| => LiteralText(a[k]))
  }

  /** Every branch is the one before, encoded once more. */
  predicate Climbs(rungs: seq<string>) {
    forall k :: 1 <= k < |rungs| ==> rungs[k] == QuoteAll(rungs[k - 1])
  }

  predicate IsLadder(a: seq<Parts>) {
    |a| >= 2 && AllLiteral(a) && Climbs(Branches(a))
  }

  // ----------------------------------------------------------------- expansion

  predicate SingleChar(alnum: char -> bool, r: Rx) {
    match r
    case Group(_, b) =>
      var a := Expand(alnum, b);
      a.Some? && !IsLadder(a.value) && AllLength1(a.value)
    case Escape(c) => c != 'b' && c != 'B'
    case _ => true
  }

  function Expand(alnum: char -> bool, r: Rx): Option<seq<Parts>> {
    match r
    case Eps => Some([[]])
    case Seq(h, t) => Join(Expand(alnum, h), Expand(alnum, t))
    case Or(l, rt) => Union(Expand(alnum, l), Expand(alnum, rt))
    case Quant(a, op, _) =>
      var e := Expand(alnum, a);
      if e.None? || !SingleChar(alnum, a) then None
      else if op == '+' then Some(AppendAny(e.value)) else Some([[PartAny]])
    case Group(_, b) =>
      var e := Expand(alnum, b);
      if e.None? then None
      else if IsLadder(e.value) then Some([[PartLadder(Branches(e.value))]]) else e
    case Class(items) => Some(ClassParts(alnum, items))
    case Escape(c) =>
      if IsShorthand(c) then Some([[PartOne]])
      else if c == 'b' || c == 'B' then Some([[]])
      else if IsControlEscape(c) then Some([[PartLit(ControlChar(c))]])
      else Some([[PartLit(c)]])
    case Hex(hi, lo) =>
      (match ReadHex(hi, lo)
       case None => None
       case Some(c) => Some([[PartLit(c)]]))
    case Dot => Some([[PartOne]])
    case Lit(c) => Some([[PartLit(c)]])
    case Start => None
    case End => None
  }

  function Join(a: Option<seq<Parts>>, b: Option<seq<Parts>>): Option<seq<Parts>> {
    if a.None? || b.None? || |a.value| * |b.value| > MAX_VALUES then None
    else Some(Cross(a.value, b.value))
  }

  function Union(a: Option<seq<Parts>>, b: Option<seq<Parts>>): Option<seq<Parts>> {
    if a.None? || b.None? || |a.value| + |b.value| > MAX_VALUES then None
    else Some(a.value + b.value)
  }

  /** Some construct was replaced by one that matches more. */
  predicate Lossy(alnum: char -> bool, r: Rx) {
    match r
    case Seq(h, t) => Lossy(alnum, h) || Lossy(alnum, t)
    case Or(l, rt) => Lossy(alnum, l) || Lossy(alnum, rt)
    case Quant(a, _, _) =>
      Lossy(alnum, a) || (Expand(alnum, a).Some? && !IsSingleOne(Expand(alnum, a).value))
    case Group(_, b) => Lossy(alnum, b)
    case Class(items) => ClassLossy(alnum, items)
    case Escape(c) => IsShorthand(c) || c == 'b' || c == 'B'
    case _ => false
  }

  /** Some group was recognized as an encoding ladder. */
  predicate Narrowed(alnum: char -> bool, r: Rx) {
    match r
    case Seq(h, t) => Narrowed(alnum, h) || Narrowed(alnum, t)
    case Or(l, rt) => Narrowed(alnum, l) || Narrowed(alnum, rt)
    case Quant(a, _, _) => Narrowed(alnum, a)
    case Group(_, b) =>
      Narrowed(alnum, b) || (Expand(alnum, b).Some? && IsLadder(Expand(alnum, b).value))
    case _ => false
  }

  // ----------------------------------------------------------------- rendering

  predicate LaddersHave(p: Parts, depth: nat) {
    forall k :: 0 <= k < |p| && p[k].PartLadder? ==> depth < |p[k].rungs|
  }

  function Render(p: Parts, depth: nat, lastAny: bool): string
    requires LaddersHave(p, depth)
  {
    if p == [] then ""
    else
      assert LaddersHave(p[1..], depth);
      match p[0]
      case PartLadder(rungs) => rungs[depth] + Render(p[1..], depth, false)
      case PartAny => (if lastAny then "" else "*") + Render(p[1..], depth, true)
      case PartOne => "?" + Render(p[1..], depth, false)
      case PartLit(c) => [c] + Render(p[1..], depth, false)
  }

  predicate UsesWildcard(p: Parts) {
    exists k :: 0 <= k < |p| && (p[k].PartAny? || p[k].PartOne?)
  }

  predicate HasLiteralWildcard(p: Parts) {
    exists k :: 0 <= k < |p| && p[k].PartLit? && (p[k].c == '*' || p[k].c == '?')
  }

  predicate HasLadder(p: Parts) {
    exists k :: 0 <= k < |p| && p[k].PartLadder?
  }

  predicate DepthIs(p: Parts, d: nat) {
    forall k :: 0 <= k < |p| && p[k].PartLadder? ==> |p[k].rungs| == d
  }

  predicate AllDepth(a: seq<Parts>, d: nat) {
    forall k :: 0 <= k < |a| ==> DepthIs(a[k], d)
  }

  predicate AnyLadder(a: seq<Parts>) {
    exists k :: 0 <= k < |a| && HasLadder(a[k])
  }

  function FirstDepthIn(p: Parts): nat {
    if p == [] then 0 else if p[0].PartLadder? then |p[0].rungs| else FirstDepthIn(p[1..])
  }

  function FirstDepth(a: seq<Parts>): nat {
    if a == [] then 0 else if FirstDepthIn(a[0]) != 0 then FirstDepthIn(a[0]) else FirstDepth(a[1..])
  }

  /** The number of values per alternative: the common depth of all ladders,
      one when there is none, and no answer when they disagree. */
  function Depths(a: seq<Parts>): Option<nat> {
    if !AnyLadder(a) then Some(1)
    else if FirstDepth(a) > 0 && AllDepth(a, FirstDepth(a)) then Some(FirstDepth(a)) else None
  }

  function Decorate(v: string, start: bool, end: bool): string {
    (if start then "" else "*") + v + (if end then "" else "*")
  }

  function ValuesAt(a: seq<Parts>, depth: nat, start: bool, end: bool): (out: seq<string>)
    requires forall k :: 0 <= k < |a| ==> LaddersHave(a[k], depth)
    ensures |out| == |a|
    ensures forall k :: 0 <= k < |a| ==> out[k] == Decorate(Render(a[k], depth, false), start, end)
  {
    seq(|a|, k requires 0 <= k < |a| => Decorate(Render(a[k], depth, false), start, end))
  }

  predicate Aligned(a: seq<Parts>, depths: nat) {
    forall k :: 0 <= k < |a| ==> forall d :: 0 <= d < depths ==> LaddersHave(a[k], d)
  }

  function Values(a: seq<Parts>, depths: nat, start: bool, end: bool): (out: seq<string>)
    requires Aligned(a, depths)
    ensures |out| == |a| * depths
    decreases depths
  {
    if depths == 0 then []
    else
      assert |a| * depths == |a| * (depths - 1) + |a|;
      Values(a, depths - 1, start, end) + ValuesAt(a, depths - 1, start, end)
  }

  lemma DepthsAlign(a: seq<Parts>)
    requires Depths(a).Some?
    ensures Aligned(a, Depths(a).value)
  {
    var d := Depths(a).value;
    forall k, e | 0 <= k < |a| && 0 <= e < d ensures LaddersHave(a[k], e)
    {
      if !AnyLadder(a) {
        assert !HasLadder(a[k]);
      } else {
        assert DepthIs(a[k], d);
      }
    }
  }

  // ------------------------------------------------------------- the whole text

  datatype Source = Source(flags: string, start: bool, body: string, end: bool)

  predicate IsAsciiLetter(c: char) { 'a' <= c <= 'z' || 'A' <= c <= 'Z' }

  function LetterRun(s: string, i: nat): (e: nat)
    requires i <= |s|
    ensures i <= e <= |s|
    decreases |s| - i
  {
    if i < |s| && IsAsciiLetter(s[i]) then LetterRun(s, i + 1) else i
  }

  /** Length of a leading `(?letters)` group, or 0. */
  function FlagsLength(s: string): (n: nat)
    ensures n <= |s|
    ensures n > 0 ==> n >= 4
  {
    if |s| >= 2 && s[0] == '(' && s[1] == '?' then
      var e := LetterRun(s, 2);
      if e > 2 && At(s, e, ')') then e + 1 else 0
    else 0
  }

  function FlagLetters(s: string): string {
    if FlagsLength(s) == 0 then "" else s[2..FlagsLength(s) - 1]
  }

  predicate KnownFlags(flags: string) {
    forall k :: 0 <= k < |flags| ==> flags[k] == 'i' || flags[k] == 's'
  }

  predicate EndsInAnchor(body: string) {
    var n := |body|;
    n > 0 && body[n - 1] == '$' && !(n > 1 && body[n - 2] == '\\')
  }

  /** Splits off the anchors at the two edges. */
  function ReadEdges(flags: string, rest: string): Source {
    var start := At(rest, 0, '^');
    var body := if start then rest[1..] else rest;
    if EndsInAnchor(body) then Source(flags, start, body[..|body| - 1], true)
    else Source(flags, start, body, false)
  }

  function ReadSource(s: string): Source {
    ReadEdges(FlagLetters(s), s[FlagsLength(s)..])
  }

  function PrintFlags(flags: string): string {
    if flags == "" then "" else "(?" + flags + ")"
  }

  function PrintEdges(src: Source): string {
    (if src.start then "^" else "") + src.body + (if src.end then "$" else "")
  }

  lemma PrintOfFlags(s: string)
    ensures PrintFlags(FlagLetters(s)) == s[..FlagsLength(s)]
  {
    var n := FlagsLength(s);
    if n > 0 {
      assert s[..n] == s[..2] + s[2..n - 1] + s[n - 1..n];
      assert s[n - 1..n] == ")" && s[..2] == "(?";
      assert |FlagLetters(s)| == n - 3;
    }
  }

  lemma PrintOfEdges(flags: string, rest: string)
    ensures PrintEdges(ReadEdges(flags, rest)) == rest
  {
    var start := At(rest, 0, '^');
    var body := if start then rest[1..] else rest;
    assert rest == (if start then "^" else "") + body;
    if EndsInAnchor(body) {
      assert body == body[..|body| - 1] + "$";
    }
  }

  lemma EdgesKeepFlags(flags: string, rest: string)
    ensures ReadEdges(flags, rest).flags == flags
  {}

  /** The split loses nothing of the text. */
  lemma PrintOfReadSource(s: string)
    ensures var src := ReadSource(s); PrintFlags(src.flags) + PrintEdges(src) == s
  {
    hide FlagsLength, FlagLetters, PrintFlags, PrintEdges, ReadEdges;
    PrintOfFlags(s);
    PrintOfEdges(FlagLetters(s), s[FlagsLength(s)..]);
    EdgesKeepFlags(FlagLetters(s), s[FlagsLength(s)..]);
  }

  datatype RegexResult = RegexResult(
    values: seq<string>, wildcard: bool, caseInsensitive: bool, lossy: bool, narrowed: bool)

  function ParseBody(alnum: char -> bool, body: string): Option<Rx> {
    var p := ParseAlternation(alnum, body, 0, 0);
    if p.Parsed? && p.next == |body| then Some(p.rx) else None
  }

  predicate AnyWildcard(a: seq<Parts>) {
    exists k :: 0 <= k < |a| && UsesWildcard(a[k])
  }

  predicate AnyLiteralWildcard(a: seq<Parts>) {
    exists k :: 0 <= k < |a| && HasLiteralWildcard(a[k])
  }

  /** Emits the values of an expansion. */
  function Emit(a: seq<Parts>, start: bool, end: bool): Option<(seq<string>, bool)> {
    var depths := Depths(a);
    if depths.None? then None
    else
      DepthsAlign(a);
      var wildcard := !start || !end || AnyWildcard(a);
      var values := Unique(Values(a, depths.value, start, end));
      if |a| * depths.value > MAX_VALUES || values == [] || "" in values || (wildcard && AnyLiteralWildcard(a)) then None
      else Some((values, wildcard))
  }

  function Translate(alnum: char -> bool, text: string): Option<RegexResult> {
    var src := ReadSource(text);
    var r := ParseBody(alnum, src.body);
    if |Utf8(text)| > MAX_REGEX_LENGTH || !KnownFlags(src.flags) || r.None? then None
    else
      var a := Expand(alnum, r.value);
      if a.None? then None
      else match Emit(a.value, src.start, src.end)
        case None => None
        case Some((values, wildcard)) =>
          Some(RegexResult(values, wildcard, 'i' in src.flags, Lossy(alnum, r.value), Narrowed(alnum, r.value)))
  }
}
