/** Operators other than the regex: what they test, and the values emitted. */
module Operators {
  import opened Options
  import opened RegexSemantics
  import opened PercentEncoding
  import opened Expansion
  import opened RegexTranslation
  import opened Wildcards
  import LetterCase

  /** What the compiler takes from the Unicode tables. */
  datatype Unicode = Unicode(alnum: char -> bool, space: char -> bool, upper: char -> char, lower: char -> char)

  datatype Match = Match(values: seq<string>, wildcard: bool, caseInsensitive: bool, lossy: bool, narrowed: bool)

  // -------------------------------------------------------------------- fields

  function FieldEnd(sep: char -> bool, s: string, i: nat): (e: nat)
    requires i <= |s|
    ensures i <= e <= |s|
    ensures i < |s| && !sep(s[i]) ==> i < e
    decreases |s| - i
  {
    if i == |s| || sep(s[i]) then i else FieldEnd(sep, s, i + 1)
  }

  /** The maximal runs without separators, from position i. */
  function Fields(sep: char -> bool, s: string, i: nat): (out: seq<string>)
    requires i <= |s|
    ensures forall k :: 0 <= k < |out| ==> out[k] != ""
    decreases |s| - i
  {
    if i == |s| then []
    else if sep(s[i]) then Fields(sep, s, i + 1)
    else
      var e := FieldEnd(sep, s, i);
      [s[i..e]] + Fields(sep, s, e)
  }

  /** The fields of words joined by a separator are the words. */
  lemma {:induction false} FieldsOfJoined(sep: char -> bool, s: string, i: nat, words: seq<string>, gap: char)
    requires i <= |s| && sep(gap) && s[i..] == JoinedBy(words, gap)
    requires forall k :: 0 <= k < |words| ==> words[k] != "" && forall c :: 0 <= c < |words[k]| ==> !sep(words[k][c])
    ensures Fields(sep, s, i) == words
    decreases |words|
  {
    if words != [] {
      var word, rest := words[0], JoinedBy(words[1..], gap);
      var e := i + |word|;
      WordThenGap(s, i, word, gap, rest);
      forall k | i <= k < e ensures !sep(s[k]) { assert s[k] == s[i..e][k - i]; }
      FieldEndIs(sep, s, i, e);
      FieldsOfJoined(sep, s, e + 1, words[1..], gap);
      assert words == [word] + words[1..];
    }
  }

  lemma WordThenGap(s: string, i: nat, word: string, gap: char, rest: string)
    requires i <= |s| && s[i..] == word + ([gap] + rest)
    ensures i + |word| < |s| && s[i..i + |word|] == word && s[i + |word|] == gap && s[i + |word| + 1..] == rest
  {
    var t, n := s[i..], |word|;
    assert s[i..i + n] == t[..n] == word;
    assert s[i + n] == t[n];
    assert s[i + n + 1..] == t[n + 1..] == rest;
  }

  function JoinedBy(words: seq<string>, gap: char): string {
    if words == [] then "" else words[0] + ([gap] + JoinedBy(words[1..], gap))
  }

  lemma {:induction false} FieldEndIs(sep: char -> bool, s: string, i: nat, e: nat)
    requires i <= e < |s| && sep(s[e]) && forall k :: i <= k < e ==> !sep(s[k])
    ensures FieldEnd(sep, s, i) == e
    decreases e - i
  {
    if i < e { FieldEndIs(sep, s, i + 1, e); }
  }

  /** A maximal stretch without separators, from position i on. */
  predicate IsField(sep: char -> bool, s: string, i: nat, a: int, b: int) {
    && i <= a < b <= |s| && (forall k :: a <= k < b ==> !sep(s[k]))
    && (a == i || sep(s[a - 1])) && (b == |s| || sep(s[b]))
  }

  lemma {:induction false} FieldEndExactly(sep: char -> bool, s: string, i: nat)
    requires i <= |s|
    ensures var e := FieldEnd(sep, s, i); (forall k :: i <= k < e ==> !sep(s[k])) && (e == |s| || sep(s[e]))
    decreases |s| - i
  {
    if i < |s| && !sep(s[i]) { FieldEndExactly(sep, s, i + 1); }
  }

  /** The fields are exactly the maximal stretches without separators. */
  lemma {:induction false} FieldsExactly(sep: char -> bool, s: string, i: nat, w: string)
    requires i <= |s|
    ensures w in Fields(sep, s, i) <==> exists a, b :: IsField(sep, s, i, a, b) && s[a..b] == w
    decreases |s| - i
  {
    if i < |s| {
      if sep(s[i]) {
        FieldsExactly(sep, s, i + 1, w);
        forall a, b ensures IsField(sep, s, i, a, b) <==> IsField(sep, s, i + 1, a, b) {}
      } else {
        var e := FieldEnd(sep, s, i);
        FieldEndExactly(sep, s, i);
        FieldsExactly(sep, s, e, w);
        assert IsField(sep, s, i, i, e);
        forall a, b ensures IsField(sep, s, i, a, b) <==> (a == i && b == e) || IsField(sep, s, e, a, b) {}
      }
    }
  }

  function DistinctFields(sep: char -> bool, s: string): (out: seq<string>)
    ensures forall k :: 0 <= k < |out| ==> out[k] != ""
  {
    var out := Unique(Fields(sep, s, 0));
    assert forall k :: 0 <= k < |out| ==> out[k] in out;
    out
  }

  function Surround(items: seq<string>): (out: seq<string>)
    ensures |out| == |items|
    ensures forall k :: 0 <= k < |items| ==> out[k] == Decorate(items[k], false, false)
  {
    seq(|items|, k requires 0 <= k < |items| => Decorate(items[k], false, false))
  }

  // ----------------------------------------------------------------- operators

  function OperatorMatch(u: Unicode, operator: string, argument: string): Option<Match> {
    if operator == "rx" then
      match Translate(u.alnum, argument)
      case None => None
      case Some(r) => Some(Match(r.values, r.wildcard, r.caseInsensitive, r.lossy, r.narrowed))
    else if operator == "contains" then Affixed(argument, false, false)
    else if operator == "beginsWith" then Affixed(argument, true, false)
    else if operator == "endsWith" then Affixed(argument, false, true)
    else if operator == "streq" || operator == "eq" then
      if argument == "" then None else Some(Match([argument], false, false, false, false))
    else if operator == "within" then
      var members := DistinctFields(u.space, argument);
      if members == [] then None else Some(Match(members, false, false, false, false))
    else if operator == "pm" then
      var members := DistinctFields(u.space, argument);
      if members == [] || |members| > MAX_VALUES then None
      else Some(Match(Surround(members), true, true, false, false))
    else if operator == "ipMatch" then
      var members := DistinctFields(AddressSeparator(u), argument);
      if members == [] then None else Some(Match(members, false, false, false, false))
    else None
  }

  function AddressSeparator(u: Unicode): char -> bool {
    c => c == ',' || u.space(c)
  }

  function Affixed(argument: string, start: bool, end: bool): Option<Match> {
    if argument == "" then None
    else Some(Match([Decorate(argument, start, end)], true, false, false, false))
  }

  /** Every accepted operator gives at least one value and no empty one. */
  lemma OperatorValues(u: Unicode, operator: string, argument: string)
    requires OperatorMatch(u, operator, argument).Some?
    ensures var values := OperatorMatch(u, operator, argument).value.values;
            values != [] && forall k :: 0 <= k < |values| ==> values[k] != ""
  {
    hide Translate;
    var values := OperatorMatch(u, operator, argument).value.values;
    if operator == "rx" {
      TranslateBounded(u.alnum, argument);
    } else if argument != "" {
      DecorateGrows(argument, false, false);
      DecorateGrows(argument, true, false);
      DecorateGrows(argument, false, true);
    }
  }

  lemma DecorateGrows(v: string, start: bool, end: bool)
    ensures |Decorate(v, start, end)| >= |v|
  {}

  // -------------------------------------------------------- affix tests, exactly

  /** The argument occurs in the string: anywhere, at the start, or at the end. */
  ghost predicate Occurs(fold: char -> char, argument: string, start: bool, end: bool, s: string) {
    exists i, j :: Window(s, start, end, i, j) && SameFolded(fold, argument, s[i..j])
  }

  lemma GlobOfLiteral(fold: char -> char, v: string, t: string)
    requires NoWildcardIn(v)
    ensures GlobMatch(fold, v, t) <==> SameFolded(fold, v, t)
  {
    assert v + "" == v;
    GlobLiteral(fold, v, "", t);
    if |v| == |t| { assert t[..|v|] == t; }
  }

  lemma LiteralAffix(fold: char -> char, argument: string, start: bool, end: bool, s: string)
    requires NoWildcardIn(argument)
    ensures GlobMatch(fold, Decorate(argument, start, end), s) <==> Occurs(fold, argument, start, end, s)
  {
    DecoratedGlob(fold, argument, start, end, s);
    forall i, j | Window(s, start, end, i, j)
      ensures GlobMatch(fold, argument, s[i..j]) <==> SameFolded(fold, argument, s[i..j])
    {
      GlobOfLiteral(fold, argument, s[i..j]);
    }
  }

  /** The argument with its wildcard characters overwritten. */
  function Overwritten(v: string, filler: char): (w: string)
    ensures |w| == |v|
    ensures forall k :: 0 <= k < |v| ==> w[k] == if v[k] == '*' || v[k] == '?' then filler else v[k]
  {
    seq(|v|, k requires 0 <= k < |v| => if v[k] == '*' || v[k] == '?' then filler else v[k])
  }

  lemma {:induction false} GlobOfOverwritten(fold: char -> char, v: string, filler: char)
    ensures GlobMatch(fold, v, Overwritten(v, filler))
  {
    if v != "" {
      var w := Overwritten(v, filler);
      assert w[1..] == Overwritten(v[1..], filler);
      GlobOfOverwritten(fold, v[1..], filler);
    }
  }

  /** The emitted value of `@contains`, `@beginsWith` and `@endsWith` tests what
      the operator tests, on every string, exactly when the argument has no
      literal `*` or `?`; the compiler does not check for them. */
  lemma AffixExact(fold: char -> char, argument: string, start: bool, end: bool, filler: char)
    requires fold(filler) != fold('*') && fold(filler) != fold('?')
    ensures (forall s: string :: GlobMatch(fold, Decorate(argument, start, end), s) <==> Occurs(fold, argument, start, end, s))
            <==> NoWildcardIn(argument)
  {
    if NoWildcardIn(argument) {
      forall s: string ensures GlobMatch(fold, Decorate(argument, start, end), s) <==> Occurs(fold, argument, start, end, s) {
        LiteralAffix(fold, argument, start, end, s);
      }
    } else {
      var w := Overwritten(argument, filler);
      var k :| 0 <= k < |argument| && (argument[k] == '*' || argument[k] == '?');
      assert w[0..|w|] == w && Window(w, start, end, 0, |w|);
      GlobOfOverwritten(fold, argument, filler);
      DecoratedGlob(fold, argument, start, end, w);
      assert GlobMatch(fold, Decorate(argument, start, end), w);
      forall i, j | Window(w, start, end, i, j) ensures !SameFolded(fold, argument, w[i..j]) {
        assert |w[i..j]| == |w| ==> w[i..j] == w;
        assert fold(argument[k]) != fold(w[k]);
      }
    }
  }

  // ------------------------------------------------------------- phrases, exactly

  /** Folding case merges neither wildcard character with another. */
  ghost predicate KeepsWildcards(fold: char -> char) {
    forall c :: (fold(c) == fold('*') ==> c == '*') && (fold(c) == fold('?') ==> c == '?')
  }

  /** The character is like no wildcard and like no character of a phrase. */
  ghost predicate Unused(fold: char -> char, phrases: seq<string>, filler: char) {
    && filler != '*' && filler != '?'
    && forall k, c :: 0 <= k < |phrases| && 0 <= c < |phrases[k]| ==> fold(phrases[k][c]) != fold(filler)
  }

  ghost predicate SomeOccurs(fold: char -> char, phrases: seq<string>, s: string) {
    exists k :: 0 <= k < |phrases| && Occurs(fold, phrases[k], false, false, s)
  }

  /** Some phrase without wildcard characters occurs in the string. */
  ghost predicate PlainOccurs(fold: char -> char, phrases: seq<string>, s: string) {
    exists k :: 0 <= k < |phrases| && NoWildcardIn(phrases[k]) && Occurs(fold, phrases[k], false, false, s)
  }

  /** Every phrase with a wildcard character contains a phrase without. */
  ghost predicate Subsumed(fold: char -> char, phrases: seq<string>) {
    forall k :: 0 <= k < |phrases| ==> NoWildcardIn(phrases[k]) || PlainOccurs(fold, phrases, phrases[k])
  }

  lemma {:induction false} GlobSplit(fold: char -> char, v: string, w: string, t: string) returns (a: nat)
    requires GlobMatch(fold, v + w, t)
    ensures a <= |t| && GlobMatch(fold, w, t[a..])
  {
    if v == "" {
      assert v + w == w && t[0..] == t;
      a := 0;
    } else {
      assert (v + w)[1..] == v[1..] + w;
      if v[0] == '*' {
        var k :| 0 <= k <= |t| && GlobMatch(fold, (v + w)[1..], t[k..]);
        var b := GlobSplit(fold, v[1..], w, t[k..]);
        assert t[k..][b..] == t[k + b..];
        a := k + b;
      } else {
        var b := GlobSplit(fold, v[1..], w, t[1..]);
        assert t[1..][b..] == t[1 + b..];
        a := 1 + b;
      }
    }
  }

  /** A literal string matches itself, wildcard characters or not. */
  lemma {:induction false} GlobOfSame(fold: char -> char, v: string, t: string)
    requires SameFolded(fold, v, t)
    ensures GlobMatch(fold, v, t)
  {
    if v != "" {
      SameFoldedCons(fold, v, t);
      GlobOfSame(fold, v[1..], t[1..]);
      if v[0] == '*' { assert GlobMatch(fold, v[1..], t[1..]); }
    }
  }

  /** What a value contains without wildcard characters, its matches contain. */
  lemma GlobKeepsPlain(fold: char -> char, v: string, q: string, t: string)
    requires KeepsWildcards(fold) && GlobMatch(fold, v, t) && NoWildcardIn(q) && Occurs(fold, q, false, false, v)
    ensures Occurs(fold, q, false, false, t)
  {
    var i, j :| Window(v, false, false, i, j) && SameFolded(fold, q, v[i..j]);
    var lit := v[i..j];
    forall k | 0 <= k < |lit| ensures lit[k] != '*' && lit[k] != '?' { assert fold(q[k]) == fold(lit[k]); }
    assert v == v[..i] + (lit + v[j..]);
    var a := GlobSplit(fold, v[..i], lit + v[j..], t);
    GlobLiteral(fold, lit, v[j..], t[a..]);
    var u := t[a..][..|lit|];
    assert u == t[a..a + |lit|] && Window(t, false, false, a, a + |lit|);
    assert SameFolded(fold, q, u);
  }

  lemma OccursWithin(fold: char -> char, q: string, s: string, i: int, j: int)
    requires 0 <= i <= j <= |s| && Occurs(fold, q, false, false, s[i..j])
    ensures Occurs(fold, q, false, false, s)
  {
    var a, b :| Window(s[i..j], false, false, a, b) && SameFolded(fold, q, s[i..j][a..b]);
    SliceOfSlice(s, i, j, a, b);
    assert Window(s, false, false, i + a, i + b);
  }

  lemma SliceOfSlice(s: string, i: int, j: int, a: int, b: int)
    requires 0 <= i <= j <= |s| && 0 <= a <= b <= j - i
    ensures s[i..j][a..b] == s[i + a..i + b]
  {
    var u, v := s[i..j][a..b], s[i + a..i + b];
    forall k | 0 <= k < |u| ensures u[k] == v[k] { assert u[k] == s[i..j][a + k] == s[i + a + k]; }
  }

  /** Whatever the phrases, an occurrence is matched. */
  lemma OccurrenceMatched(fold: char -> char, phrases: seq<string>, s: string)
    requires SomeOccurs(fold, phrases, s)
    ensures SomeValueMatches(fold, Surround(phrases), true, s)
  {
    var k :| 0 <= k < |phrases| && Occurs(fold, phrases[k], false, false, s);
    var i, j :| Window(s, false, false, i, j) && SameFolded(fold, phrases[k], s[i..j]);
    GlobOfSame(fold, phrases[k], s[i..j]);
    DecoratedGlob(fold, phrases[k], false, false, s);
    assert ValueMatches(fold, Surround(phrases)[k], true, s);
  }

  lemma SubsumedMatches(fold: char -> char, phrases: seq<string>, s: string)
    requires KeepsWildcards(fold) && Subsumed(fold, phrases) && SomeValueMatches(fold, Surround(phrases), true, s)
    ensures SomeOccurs(fold, phrases, s)
  {
    var k :| 0 <= k < |phrases| && ValueMatches(fold, Surround(phrases)[k], true, s);
    var v := phrases[k];
    DecoratedGlob(fold, v, false, false, s);
    var i, j :| Window(s, false, false, i, j) && GlobMatch(fold, v, s[i..j]);
    if NoWildcardIn(v) {
      GlobOfLiteral(fold, v, s[i..j]);
      assert Occurs(fold, v, false, false, s);
    } else {
      var m :| 0 <= m < |phrases| && NoWildcardIn(phrases[m]) && Occurs(fold, phrases[m], false, false, v);
      GlobKeepsPlain(fold, v, phrases[m], s[i..j]);
      OccursWithin(fold, phrases[m], s, i, j);
    }
  }

  /** A phrase overwritten with an unused character holds no phrase that the phrase
      itself does not hold plainly. */
  lemma OverwrittenHolds(fold: char -> char, phrases: seq<string>, v: string, m: nat, filler: char)
    requires KeepsWildcards(fold) && Unused(fold, phrases, filler) && m < |phrases|
    requires Occurs(fold, phrases[m], false, false, Overwritten(v, filler))
    ensures NoWildcardIn(phrases[m]) && Occurs(fold, phrases[m], false, false, v)
  {
    var q, w := phrases[m], Overwritten(v, filler);
    var i, j :| Window(w, false, false, i, j) && SameFolded(fold, q, w[i..j]);
    forall c | 0 <= c < |q| ensures fold(q[c]) == fold(v[i + c]) && q[c] != '*' && q[c] != '?' {
      assert w[i..j][c] == w[i + c];
      assert fold(w[i + c]) == fold(q[c]) && fold(q[c]) != fold(filler);
    }
    assert Window(v, false, false, i, j);
    assert SameFolded(fold, q, v[i..j]);
  }

  /** `@pm`: the emitted values match exactly the strings in which some phrase
      occurs, if and only if every phrase with a `*` or `?` contains a phrase
      without; the compiler does not check for them. */
  lemma PhrasesExact(fold: char -> char, phrases: seq<string>, filler: char)
    requires KeepsWildcards(fold) && Unused(fold, phrases, filler)
    ensures (forall s: string :: SomeValueMatches(fold, Surround(phrases), true, s) <==> SomeOccurs(fold, phrases, s))
            <==> Subsumed(fold, phrases)
  {
    if Subsumed(fold, phrases) {
      forall s: string ensures SomeValueMatches(fold, Surround(phrases), true, s) <==> SomeOccurs(fold, phrases, s) {
        if SomeOccurs(fold, phrases, s) { OccurrenceMatched(fold, phrases, s); }
        if SomeValueMatches(fold, Surround(phrases), true, s) { SubsumedMatches(fold, phrases, s); }
      }
    } else {
      var k :| 0 <= k < |phrases| && !NoWildcardIn(phrases[k]) && !PlainOccurs(fold, phrases, phrases[k]);
      var w := Overwritten(phrases[k], filler);
      OverwrittenMatched(fold, phrases, k, filler);
      forall m | 0 <= m < |phrases| ensures !Occurs(fold, phrases[m], false, false, w) {
        if Occurs(fold, phrases[m], false, false, w) { OverwrittenHolds(fold, phrases, phrases[k], m, filler); }
      }
      assert !SomeOccurs(fold, phrases, w);
    }
  }

  lemma OverwrittenMatched(fold: char -> char, phrases: seq<string>, k: nat, filler: char)
    requires k < |phrases|
    ensures SomeValueMatches(fold, Surround(phrases), true, Overwritten(phrases[k], filler))
  {
    var w := Overwritten(phrases[k], filler);
    assert w[0..|w|] == w && Window(w, false, false, 0, |w|);
    GlobOfOverwritten(fold, phrases[k], filler);
    DecoratedGlob(fold, phrases[k], false, false, w);
    assert ValueMatches(fold, Surround(phrases)[k], true, w);
  }

  /** The phrase list `a*b` is emitted as `*a*b*`, which matches `axb`. */
  lemma PhraseOverMatches(fold: char -> char)
    requires fold('x') != fold('*')
    ensures SomeValueMatches(fold, Surround(["a*b"]), true, "axb") && !SomeOccurs(fold, ["a*b"], "axb")
  {
    var phrases := ["a*b"];
    assert Overwritten("a*b", 'x') == "axb";
    OverwrittenMatched(fold, phrases, 0, 'x');
    forall i, j | Window("axb", false, false, i, j) ensures !SameFolded(fold, "a*b", "axb"[i..j]) {
      if |"axb"[i..j]| == 3 { assert "axb"[i..j] == "axb" && "axb"[1] == 'x' && "a*b"[1] == '*'; }
    }
  }

  /** The values of the list operators are the words of the argument, all and no
      others, and for phrases each between stars. */
  lemma MembersExactly(u: Unicode, operator: string, argument: string, w: string)
    requires operator == "within" || operator == "ipMatch" || operator == "pm"
    requires OperatorMatch(u, operator, argument).Some?
    ensures var m, sep := OperatorMatch(u, operator, argument).value, if operator == "ipMatch" then c => c == ',' || u.space(c) else u.space;
            (if operator == "pm" then "*" + w + "*" else w) in m.values <==> exists a, b :: IsField(sep, argument, 0, a, b) && argument[a..b] == w
  {
    if operator == "ipMatch" {
      SameSeparators(AddressSeparator(u), c => c == ',' || u.space(c), argument);
      FieldsExactly(AddressSeparator(u), argument, 0, w);
    } else {
      FieldsExactly(u.space, argument, 0, w);
      if operator == "pm" { Surrounded(DistinctFields(u.space, argument), w); }
    }
  }

  lemma SameSeparators(a: char -> bool, b: char -> bool, s: string)
    requires forall c :: a(c) <==> b(c)
    ensures forall x, y :: IsField(a, s, 0, x, y) <==> IsField(b, s, 0, x, y)
  {}

  lemma Surrounded(phrases: seq<string>, w: string)
    ensures "*" + w + "*" in Surround(phrases) <==> w in phrases
  {
    var all := Surround(phrases);
    if w in phrases {
      var k :| 0 <= k < |phrases| && phrases[k] == w;
      assert all[k] == "*" + w + "*";
    }
    if "*" + w + "*" in all {
      var k :| 0 <= k < |all| && all[k] == "*" + w + "*";
      assert ("*" + phrases[k] + "*")[1..|phrases[k]| + 1] == phrases[k] && ("*" + w + "*")[1..|w| + 1] == w;
    }
  }

  // ------------------------------------------------------ two operators, never exact

  /** `@within` holds of whatever occurs in its argument; the values are the
      argument's words.  They match nothing else, but never all of it: the empty
      text occurs in every argument and is no word. */
  lemma WithinIsNarrower(u: Unicode, argument: string, cmp: char -> char)
    requires OperatorMatch(u, "within", argument).Some?
    ensures var m := OperatorMatch(u, "within", argument).value;
            && !m.lossy && !m.narrowed
            && (forall s :: SomeValueMatches(cmp, m.values, m.wildcard, s) ==> Occurs(cmp, s, false, false, argument))
            && Occurs(cmp, "", false, false, argument) && !SomeValueMatches(cmp, m.values, m.wildcard, "")
  {
    var m := OperatorMatch(u, "within", argument).value;
    forall s | SomeValueMatches(cmp, m.values, m.wildcard, s) ensures Occurs(cmp, s, false, false, argument) {
      var k :| 0 <= k < |m.values| && ValueMatches(cmp, m.values[k], m.wildcard, s);
      assert m.values[k] in m.values;
      FieldsExactly(u.space, argument, 0, m.values[k]);
      var a, b :| IsField(u.space, argument, 0, a, b) && argument[a..b] == m.values[k];
      assert Window(argument, false, false, a, b);
    }
    assert argument[0..0] == "" && Window(argument, false, false, 0, 0);
  }

  /** The number at the start of a text: blanks, a sign and digits; none is zero. */
  function Number(s: string): int {
    if s != "" && IsBlankChar(s[0]) then Number(s[1..])
    else if s != "" && s[0] == '-' then -Digits(s[1..], 0)
    else if s != "" && s[0] == '+' then Digits(s[1..], 0)
    else Digits(s, 0)
  }

  function Digits(s: string, read: int): int {
    if s != "" && '0' <= s[0] <= '9' then Digits(s[1..], 10 * read + (s[0] as int - '0' as int)) else read
  }

  lemma {:induction false} DigitsThenBlank(s: string, read: int)
    ensures Digits(s + " ", read) == Digits(s, read)
  {
    if s != "" {
      assert (s + " ")[1..] == s[1..] + " ";
      if '0' <= s[0] <= '9' { DigitsThenBlank(s[1..], 10 * read + (s[0] as int - '0' as int)); }
    }
  }

  lemma {:induction false} NumberThenBlank(s: string)
    ensures Number(s + " ") == Number(s)
  {
    DigitsThenBlank(s, 0);
    if s == "" {
      assert (s + " ")[1..] == "";
    } else {
      assert (s + " ")[1..] == s[1..] + " ";
      NumberThenBlank(s[1..]);
      DigitsThenBlank(s[1..], 0);
    }
  }

  /** `@eq` compares numbers; the value is compared as a text.  It matches nothing
      else, but never all: a blank behind the argument changes no number. */
  lemma NumbersAreNarrower(u: Unicode, argument: string)
    requires OperatorMatch(u, "eq", argument).Some?
    ensures var m := OperatorMatch(u, "eq", argument).value;
            && !m.lossy && !m.narrowed
            && (forall s :: SomeValueMatches(LetterCase.Exact, m.values, m.wildcard, s) ==> Number(s) == Number(argument))
            && exists s :: Number(s) == Number(argument) && forall cmp: char -> char :: !SomeValueMatches(cmp, m.values, m.wildcard, s)
  {
    NumberThenBlank(argument);
    var m, s := OperatorMatch(u, "eq", argument).value, argument + " ";
    forall t | SomeValueMatches(LetterCase.Exact, m.values, m.wildcard, t) ensures t == argument {}
    assert Number(s) == Number(argument) && forall cmp: char -> char :: !SomeValueMatches(cmp, m.values, m.wildcard, s);
  }
}
