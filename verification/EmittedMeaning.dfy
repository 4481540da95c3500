/** What an accepted translation means, whatever its text: the emitted values
    match exactly the strings found by the text as the translator reads it. */
module EmittedMeaning {
  import opened Options
  import opened RegexSyntax
  import opened Expansion
  import opened RegexTranslator
  import opened TranslationMeaning
  import opened Fidelity
  import opened TranslationTheorems

  const ANYTHING: Rx := Quant(Dot, '*', "")

  /** One of the characters. */
  function OneOf(members: seq<char>): Rx
    requires members != []
  {
    if |members| == 1 then Lit(members[0]) else Or(Lit(members[0]), OneOf(members[1..]))
  }

  /** The tree as it is read: optional and starred atoms are any run, a plus is
      one atom and any run, possessive markers are gone, a class is its listed
      characters or any character, word boundaries are nothing. */
  function AsRead(alnum: char -> bool, r: Rx): Rx {
    match r
    case Seq(h, t) => Seq(AsRead(alnum, h), AsRead(alnum, t))
    case Or(l, rt) => Or(AsRead(alnum, l), AsRead(alnum, rt))
    case Quant(a, op, _) => if op == '+' then Seq(AsRead(alnum, a), ANYTHING) else ANYTHING
    case Group(open, b) => Group(open, AsRead(alnum, b))
    case Class(items) =>
      if ClassLossy(alnum, items) || Enumerate(alnum, items).value == [] then Dot else OneOf(Enumerate(alnum, items).value)
    case Escape(c) =>
      if IsShorthand(c) then Dot
      else if c == 'b' || c == 'B' then Eps
      else Lit(if IsControlEscape(c) then ControlChar(c) else c)
    case Hex(hi, lo) => (match ReadHex(hi, lo) case None => Eps case Some(c) => Lit(c))
    case _ => r
  }

  lemma {:induction false} OneOfExpands(alnum: char -> bool, members: seq<char>)
    requires 1 <= |members| <= MAX_CLASS_MEMBERS
    ensures Expand(alnum, OneOf(members)) == Some(Singles(members)) && Exactly(alnum, OneOf(members))
  {
    if |members| > 1 {
      OneOfExpands(alnum, members[1..]);
      assert Singles(members) == [[PartLit(members[0])]] + Singles(members[1..]);
    } else {
      assert Singles(members) == [[PartLit(members[0])]];
    }
  }

  lemma {:induction false} CrossAnything(a: seq<Parts>)
    ensures Cross(a, [[PartAny]]) == AppendAny(a)
  {
    if a != [] {
      CrossAnything(a[1..]);
      assert Prepend(a[0], [[PartAny]]) == [a[0] + [PartAny]];
      assert AppendAny(a) == [a[0] + [PartAny]] + AppendAny(a[1..]);
    }
  }

  lemma AnythingExpands(alnum: char -> bool)
    ensures Expand(alnum, ANYTHING) == Some([[PartAny]]) && Exactly(alnum, ANYTHING)
  {}

  lemma QuantAsRead(alnum: char -> bool, r: Rx)
    requires r.Quant? && Expand(alnum, r).Some?
    requires Expand(alnum, AsRead(alnum, r.atom)) == Expand(alnum, r.atom) && Exactly(alnum, AsRead(alnum, r.atom))
    ensures Expand(alnum, AsRead(alnum, r)) == Expand(alnum, r) && Exactly(alnum, AsRead(alnum, r))
  {
    AnythingExpands(alnum);
    ExpandBounded(alnum, r.atom);
    CrossAnything(Expand(alnum, r.atom).value);
  }

  /** Reading changes nothing about the expansion, and what is read is exact. */
  lemma {:induction false} AsReadExpands(alnum: char -> bool, r: Rx)
    requires Expand(alnum, r).Some?
    ensures Expand(alnum, AsRead(alnum, r)) == Expand(alnum, r) && Exactly(alnum, AsRead(alnum, r))
  {
    match r
    case Seq(h, t) =>
      AsReadExpands(alnum, h);
      AsReadExpands(alnum, t);
    case Or(l, rt) =>
      AsReadExpands(alnum, l);
      AsReadExpands(alnum, rt);
    case Quant(a, op, m) =>
      AsReadExpands(alnum, a);
      QuantAsRead(alnum, r);
    case Group(_, b) => AsReadExpands(alnum, b);
    case Class(items) =>
      if !ClassLossy(alnum, items) {
        ExpandBounded(alnum, r);
        OneOfExpands(alnum, Enumerate(alnum, items).value);
      }
    case _ =>
  }

  /** For every accepted text without ladders, lossy or not: a string matches some
      emitted value exactly when the text as read is found in it, the anchors
      standing outside all branches. */
  lemma EmittedExactly(fold: char -> char, alnum: char -> bool, text: string, s: string)
    requires KnowsAscii(alnum) && Translate(alnum, text).Some? && !Translate(alnum, text).value.narrowed
    ensures var src := ReadSource(text);
            Emitted(fold, alnum, text, s) <==> BodyFound(fold, src.start, AsRead(alnum, TreeOf(alnum, text)), src.end, s)
  {
    hide Exactly;
    var src, r := ReadSource(text), TreeOf(alnum, text);
    TranslateEmits(alnum, text);
    NotNarrowedNoLadder(alnum, r);
    var a := Expand(alnum, r).value;
    NoLadderPlainRungs(a);
    AsReadExpands(alnum, r);
    EmittedCovers(fold, a, src.start, src.end, s);
    NoLadderOneDepth(a);
    if Emitted(fold, alnum, text, s) { SoundBody(fold, alnum, src.start, AsRead(alnum, r), src.end, 1, s); }
    if BodyFound(fold, src.start, AsRead(alnum, r), src.end, s) {
      ExactIsPlain(alnum, AsRead(alnum, r));
      CompleteBody(fold, alnum, src.start, AsRead(alnum, r), src.end, s);
    }
  }

  lemma ExactIsPlain(alnum: char -> bool, r: Rx)
    requires Exactly(alnum, r)
    ensures PlainlyRead(r) && Expand(alnum, r).Some?
  {}

  lemma NoLadderOneDepth(a: seq<Parts>)
    requires !AnyLadder(a)
    ensures Depths(a) == Some(1)
  {}

  /** With ladders the emitted values stay within the text as read, provided no
      rung holds a wildcard character where values are wildcards. */
  lemma EmittedWithin(fold: char -> char, alnum: char -> bool, text: string, s: string)
    requires KnowsAscii(alnum) && Translate(alnum, text).Some? && Emitted(fold, alnum, text, s)
    requires Translate(alnum, text).value.wildcard ==> PlainRungs(Expand(alnum, TreeOf(alnum, text)).value)
    ensures var src := ReadSource(text);
            BodyFound(fold, src.start, AsRead(alnum, TreeOf(alnum, text)), src.end, s)
  {
    hide Exactly;
    var src, r := ReadSource(text), TreeOf(alnum, text);
    TranslateEmits(alnum, text);
    AsReadExpands(alnum, r);
    var a := Expand(alnum, r).value;
    EmittedCovers(fold, a, src.start, src.end, s);
    SoundBody(fold, alnum, src.start, AsRead(alnum, r), src.end, Depths(a).value, s);
  }
}
